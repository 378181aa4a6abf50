/** The meaning of `d3.group(xs, key)` followed by `Array.from`: the
    distinct keys in order of first appearance, each paired with the
    elements that have it, in input order. */
module D3Group {

  /** The distinct keys of `xs`, in order of first appearance. */
  function Keys<T, K(==)>(xs: seq<T>, key: T -> K): seq<K>
  {
    if xs == [] then []
    else
      var ks := Keys(xs[..|xs| - 1], key);
      if key(xs[|xs| - 1]) in ks then ks else ks + [key(xs[|xs| - 1])]
  }

  /** The elements of `xs` whose key is `k`, in input order. */
  function Members<T, K(==)>(xs: seq<T>, key: T -> K, k: K): seq<T>
  {
    if xs == [] then []
    else Members(xs[..|xs| - 1], key, k) + (if key(xs[|xs| - 1]) == k then [xs[|xs| - 1]] else [])
  }

  /** `Array.from(d3.group(xs, key))`: one `(key, members)` entry per
      distinct key, in order of first appearance. */
  function Group<T, K(==)>(xs: seq<T>, key: T -> K): seq<(K, seq<T>)>
  {
    GroupsFor(xs, key, Keys(xs, key))
  }

  /** The entries for the keys `ks`, in the order of `ks`. */
  function GroupsFor<T, K(==)>(xs: seq<T>, key: T -> K, ks: seq<K>): (r: seq<(K, seq<T>)>)
    ensures |r| == |ks|
    ensures forall i :: 0 <= i < |ks| ==> r[i] == (ks[i], Members(xs, key, ks[i]))
  {
    if ks == [] then [] else [(ks[0], Members(xs, key, ks[0]))] + GroupsFor(xs, key, ks[1..])
  }

  /** The members of all entries, one entry after the other. */
  function Values<T, K>(groups: seq<(K, seq<T>)>): seq<T>
  {
    if groups == [] then [] else groups[0].1 + Values(groups[1..])
  }

  /** No key is listed twice. */
  lemma {:induction false} KeysDistinct<T, K>(xs: seq<T>, key: T -> K)
    ensures forall i, j :: 0 <= i < j < |Keys(xs, key)| ==> Keys(xs, key)[i] != Keys(xs, key)[j]
  {
    if xs != [] {
      KeysDistinct(xs[..|xs| - 1], key);
    }
  }

  /** The key of every element is listed. */
  lemma {:induction false} KeyListed<T, K>(xs: seq<T>, key: T -> K, i: nat)
    requires i < |xs|
    ensures key(xs[i]) in Keys(xs, key)
  {
    if i < |xs| - 1 {
      KeyListed(xs[..|xs| - 1], key, i);
    }
  }

  /** Every listed key is the key of some element. */
  lemma {:induction false} KeyWitness<T, K>(xs: seq<T>, key: T -> K, k: K) returns (i: nat)
    requires k in Keys(xs, key)
    ensures i < |xs| && key(xs[i]) == k
  {
    if k in Keys(xs[..|xs| - 1], key) {
      i := KeyWitness(xs[..|xs| - 1], key, k);
    } else {
      i := |xs| - 1;
    }
  }

  /** A key is listed exactly when some element has it. */
  lemma KeysComplete<T, K>(xs: seq<T>, key: T -> K)
    ensures forall k :: k in Keys(xs, key) <==> exists i :: 0 <= i < |xs| && key(xs[i]) == k
  {
    forall k | k in Keys(xs, key) ensures exists i :: 0 <= i < |xs| && key(xs[i]) == k {
      var i := KeyWitness(xs, key, k);
    }
    forall i | 0 <= i < |xs| ensures key(xs[i]) in Keys(xs, key) {
      KeyListed(xs, key, i);
    }
  }

  /** The keys of a prefix of `xs` are a prefix of the keys of `xs`: keys
      are listed in order of first appearance. */
  lemma {:induction false} KeysOfPrefix<T, K>(xs: seq<T>, key: T -> K, n: nat)
    requires n <= |xs|
    ensures Keys(xs[..n], key) <= Keys(xs, key)
    decreases |xs|
  {
    if n < |xs| {
      KeysOfPrefix(xs[..|xs| - 1], key, n);
      assert xs[..|xs| - 1][..n] == xs[..n];
    } else {
      assert xs[..n] == xs;
    }
  }

  /** An element is a member for `k` exactly when it is in `xs` with key `k`. */
  lemma {:induction false} MembersOf<T, K>(xs: seq<T>, key: T -> K, k: K, x: T)
    ensures x in Members(xs, key, k) <==> x in xs && key(x) == k
  {
    if xs != [] {
      MembersOf(xs[..|xs| - 1], key, k, x);
      assert xs == xs[..|xs| - 1] + [xs[|xs| - 1]];
    }
  }

  /** Selecting members distributes over concatenation, so members keep
      their input order. */
  lemma {:induction false} MembersAppend<T, K>(a: seq<T>, b: seq<T>, key: T -> K, k: K)
    ensures Members(a + b, key, k) == Members(a, key, k) + Members(b, key, k)
  {
    if b == [] {
      assert a + b == a;
    } else {
      MembersAppend(a, b[..|b| - 1], key, k);
      assert (a + b)[..|a + b| - 1] == a + b[..|b| - 1];
    }
  }

  /** Every listed key has at least one member. */
  lemma GroupsNonEmpty<T, K>(xs: seq<T>, key: T -> K, k: K)
    requires k in Keys(xs, key)
    ensures |Members(xs, key, k)| > 0
  {
    var i := KeyWitness(xs, key, k);
    MembersOf(xs, key, k, xs[i]);
  }

  /** The elements of `xs` whose key is in `s`, in input order. */
  function MembersIn<T, K(==)>(xs: seq<T>, key: T -> K, s: set<K>): seq<T>
  {
    if xs == [] then []
    else MembersIn(xs[..|xs| - 1], key, s) + (if key(xs[|xs| - 1]) in s then [xs[|xs| - 1]] else [])
  }

  /** Splitting one key off a key set splits its members off. */
  lemma {:induction false} MembersInSplit<T, K>(xs: seq<T>, key: T -> K, k: K, s: set<K>)
    requires k !in s
    ensures multiset(MembersIn(xs, key, {k} + s)) == multiset(Members(xs, key, k)) + multiset(MembersIn(xs, key, s))
  {
    if xs != [] {
      MembersInSplit(xs[..|xs| - 1], key, k, s);
    }
  }

  /** The entries for distinct keys hold exactly the elements with one of
      those keys. */
  lemma {:induction false} FlattenMembersIn<T, K>(xs: seq<T>, key: T -> K, ks: seq<K>)
    requires forall i, j :: 0 <= i < j < |ks| ==> ks[i] != ks[j]
    ensures multiset(Values(GroupsFor(xs, key, ks))) == multiset(MembersIn(xs, key, set k | k in ks))
  {
    if ks == [] {
      assert (set k | k in ks) == {};
      MembersInNone(xs, key);
    } else {
      FlattenMembersIn(xs, key, ks[1..]);
      assert (set k | k in ks) == {ks[0]} + (set k | k in ks[1..]);
      MembersInSplit(xs, key, ks[0], set k | k in ks[1..]);
    }
  }

  /** No key, no members. */
  lemma {:induction false} MembersInNone<T, K>(xs: seq<T>, key: T -> K)
    ensures MembersIn(xs, key, {}) == []
  {
    if xs != [] {
      MembersInNone(xs[..|xs| - 1], key);
    }
  }

  /** When every key is in `s`, every element is kept. */
  lemma {:induction false} MembersInAll<T, K>(xs: seq<T>, key: T -> K, s: set<K>)
    requires forall i :: 0 <= i < |xs| ==> key(xs[i]) in s
    ensures MembersIn(xs, key, s) == xs
  {
    if xs != [] {
      MembersInAll(xs[..|xs| - 1], key, s);
      assert xs == xs[..|xs| - 1] + [xs[|xs| - 1]];
    }
  }

  /** The groups, one after the other, hold every element exactly once. */
  lemma GroupPartitions<T, K>(xs: seq<T>, key: T -> K)
    ensures multiset(Values(Group(xs, key))) == multiset(xs)
  {
    var ks := Keys(xs, key);
    KeysDistinct(xs, key);
    FlattenMembersIn(xs, key, ks);
    forall i | 0 <= i < |xs| ensures key(xs[i]) in (set k | k in ks) {
      KeyListed(xs, key, i);
    }
    MembersInAll(xs, key, set k | k in ks);
  }
}
