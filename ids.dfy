/** Identifier arithmetic over the key set of a store: the largest key, the
    "max + 1" allocator of the in-memory stores, the keys in ascending
    order (what `ORDER BY id` yields) and lookups in two-column link tables. */
module Ids {

  /** A set is empty or has a member (set extensionality, stated once). */
  lemma EmptyOrMember(s: set<int>)
    ensures s == {} || exists x :: x in s
  {
    if !(exists x :: x in s) {
      assert s == {};
    }
  }

  /** Every non-empty finite set of integers has a largest element. */
  lemma {:induction false} MaxExists(s: set<int>)
    requires s != {}
    ensures exists m :: m in s && forall y :: y in s ==> y <= m
  {
    EmptyOrMember(s);
    var x :| x in s;
    var rest := s - {x};
    if rest == {} {
      forall y | y in s ensures y <= x {
        assert y !in rest;
      }
    } else {
      MaxExists(rest);
      var m :| m in rest && forall y :: y in rest ==> y <= m;
      var top := if x > m then x else m;
      forall y | y in s ensures y <= top {
        if y != x { assert y in rest; }
      }
    }
  }

  /** The largest key of a non-empty key set. */
  function MaxKey(s: set<int>): (m: int)
    requires s != {}
    ensures m in s
    ensures forall y :: y in s ==> y <= m
  {
    MaxExists(s);
    var m :| m in s && forall y :: y in s ==> y <= m;
    m
  }

  /** `getNextId`: one more than the largest key, or 1 for an empty store. */
  function NextId(keys: set<int>): (id: int)
    ensures id !in keys
    ensures forall k :: k in keys ==> k < id
    ensures keys == {} ==> id == 1
    ensures keys != {} ==> id - 1 in keys
  {
    if keys == {} then 1 else MaxKey(keys) + 1
  }

  /** A sequence of keys in strictly ascending order (hence without repeats). */
  predicate StrictlyAscending(s: seq<int>)
  {
    forall i, j :: 0 <= i < j < |s| ==> s[i] < s[j]
  }

  /** The keys of a set in ascending order. */
  function SortedIds(s: set<int>): (r: seq<int>)
    ensures |r| == |s|
    ensures forall x :: x in r <==> x in s
    ensures StrictlyAscending(r)
    decreases |s|
  {
    if s == {} then []
    else
      var m := MaxKey(s);
      assert |s - {m}| == |s| - 1;
      var rest := SortedIds(s - {m});
      var r := rest + [m];
      assert forall x :: x in r <==> x in rest || x == m;
      forall i, j | 0 <= i < j < |r| ensures r[i] < r[j] {
        assert r[i] == rest[i] && rest[i] in s - {m};
        if j < |rest| {
          assert r[j] == rest[j];
        }
      }
      r
  }

  /** The second ids of the pairs in `rel` whose first id is `k`: what
      `SELECT b FROM rel WHERE a = k` yields from a two-column link table. */
  function Targets(rel: set<(int, int)>, k: int): (r: set<int>)
    ensures forall b {:trigger b in r} {:trigger (k, b) in rel} :: b in r <==> (k, b) in rel
  {
    set p | p in rel && p.0 == k :: p.1
  }

  /** Inserting the pair `(a, b)` adds `b` to the targets of `a` and changes
      no other key's targets. */
  lemma TargetsAfterInsert(rel: set<(int, int)>, a: int, b: int)
    ensures Targets(rel + {(a, b)}, a) == Targets(rel, a) + {b}
    ensures forall c :: c != a ==> Targets(rel + {(a, b)}, c) == Targets(rel, c)
  {
    forall c | c != a ensures Targets(rel + {(a, b)}, c) == Targets(rel, c) {
      forall x | x in Targets(rel + {(a, b)}, c) ensures x in Targets(rel, c) {
        assert (c, x) in rel + {(a, b)};
      }
    }
  }

  /** Deleting the pair `(a, b)` removes `b` from the targets of `a` and
      changes no other key's targets. */
  lemma TargetsAfterDelete(rel: set<(int, int)>, a: int, b: int)
    ensures Targets(rel - {(a, b)}, a) == Targets(rel, a) - {b}
    ensures forall c :: c != a ==> Targets(rel - {(a, b)}, c) == Targets(rel, c)
  {
    forall x | x in Targets(rel, a) - {b} ensures x in Targets(rel - {(a, b)}, a) {
      assert (a, x) in rel - {(a, b)};
    }
    forall c | c != a ensures Targets(rel - {(a, b)}, c) == Targets(rel, c) {
      forall x | x in Targets(rel, c) ensures x in Targets(rel - {(a, b)}, c) {
        assert (c, x) in rel - {(a, b)};
      }
    }
  }

  /** When the store already holds the largest key `k`, the next id is `k + 1`:
      allocation is monotone in the largest key. */
  lemma {:induction false} NextIdAfterInsert(keys: set<int>)
    ensures NextId(keys + {NextId(keys)}) == NextId(keys) + 1
  {
    var n := NextId(keys);
    var keys' := keys + {n};
    assert n in keys';
    var m := MaxKey(keys');
    assert m == n;
  }
}
