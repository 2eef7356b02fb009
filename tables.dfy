/**
 * Vocabulary shared by both variants of the store: optional column values,
 * tables as maps from autoincrement row ids to rows, and the UNIQUE
 * constraints over them.
 */
module Tables {

  datatype Option<T> = None | Some(value: T)

  /** A value Python's `sqlite3` can bind as an INTEGER parameter: a signed
      64-bit integer.  Binding a Python `int` outside this range raises
      `OverflowError` before the statement runs. */
  predicate IsSqliteInteger(n: int) {
    -0x8000_0000_0000_0000 <= n < 0x8000_0000_0000_0000
  }

  /** No two rows of the table hold the same value: a UNIQUE constraint over
      every stored column of the row. */
  ghost predicate Injective<K, V>(m: map<K, V>) {
    forall a, b :: a in m && b in m && m[a] == m[b] ==> a == b
  }

  /** Every row id was handed out by the AUTOINCREMENT counter `next`:
      SQLite starts at 1 and never reuses an id. */
  ghost predicate IdsBelow<V>(m: map<nat, V>, next: nat) {
    0 < next && forall id :: id in m ==> 0 < id < next
  }

  /** Inserting under the next AUTOINCREMENT id adds a new row and keeps the
      counter ahead of every id. */
  lemma InsertNext<V>(m: map<nat, V>, next: nat, v: V)
    requires IdsBelow(m, next)
    ensures next !in m && IdsBelow(m[next := v], next + 1)
    ensures m[next := v].Values == m.Values + {v}
  {
    var m' := m[next := v];
    forall x | x in m'.Values ensures x in m.Values + {v} {
      var k :| k in m' && m'[k] == x;
      if k != next { assert m[k] == x; }
    }
    forall x | x in m.Values + {v} ensures x in m'.Values {
      if x != v {
        var k :| k in m && m[k] == x;
        assert m'[k] == x;
      } else {
        assert m'[next] == v;
      }
    }
  }

  /** A new key with a value not yet present keeps the table one-to-one. */
  lemma InjectiveInsert<K, V>(m: map<K, V>, k: K, v: V)
    requires Injective(m) && k !in m && v !in m.Values
    ensures Injective(m[k := v])
  {
    assert forall a :: a in m ==> m[a] in m.Values;
  }

  lemma SubsetCard<T>(a: set<T>, b: set<T>)
    requires a <= b
    ensures |a| <= |b|
  {
    assert b == a + (b - a);
  }

  /** A set that is the image of `ks` under a function that is one-to-one on
      `ks` is as large as `ks`. */
  lemma {:induction false} ImageCard<K, V>(ks: set<K>, img: set<V>, f: K -> V)
    requires forall a, b :: a in ks && b in ks && f(a) == f(b) ==> a == b
    requires forall k :: k in ks ==> f(k) in img
    requires forall v :: v in img ==> exists k :: k in ks && f(k) == v
    ensures |img| == |ks|
  {
    if ks != {} {
      var k :| k in ks;
      ImageCard(ks - {k}, img - {f(k)}, f);
      assert img == (img - {f(k)}) + {f(k)};
    }
  }

  /** Every element of `img` is the image of some element of `ks`, so `img`
      is no larger than `ks`. */
  lemma {:induction false} ImageCardAtMost<K, V>(ks: set<K>, img: set<V>, f: K -> V)
    requires forall v :: v in img ==> exists k :: k in ks && f(k) == v
    ensures |img| <= |ks|
  {
    if img != {} {
      var v :| v in img;
      var k :| k in ks && f(k) == v;
      forall w | w in img - {v} ensures exists j :: j in ks - {k} && f(j) == w {
        var j :| j in ks && f(j) == w;
        assert j != k;
      }
      ImageCardAtMost(ks - {k}, img - {v}, f);
    }
  }

  /** A table under a whole-row UNIQUE constraint has as many distinct row
      values as rows. */
  lemma {:induction false} InjectiveCard<K, V>(m: map<K, V>)
    requires Injective(m)
    ensures |m.Values| == |m|
  {
    if m != map[] {
      var k :| k in m;
      var rest := m - {k};
      assert rest.Keys == m.Keys - {k};
      InjectiveCard(rest);
      forall v | v in m.Values ensures v in rest.Values || v == m[k] {
        var j :| j in m && m[j] == v;
        if j != k {
          assert j in rest && rest[j] == v;
        }
      }
      forall v | v in rest.Values ensures v in m.Values {
        var j :| j in rest && rest[j] == v;
        assert j in m && m[j] == v;
      }
      assert m.Values == rest.Values + {m[k]};
      forall j | j in rest ensures rest[j] != m[k] {
        assert j in m && j != k && rest[j] == m[j];
      }
      assert m[k] !in rest.Values;
    }
  }
}
