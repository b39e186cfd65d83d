/**
 * java.util.TreeMap<String, V> as a value: an association list kept in
 * ascending key order (String.compareTo), so that iterating over the map
 * (entrySet, keySet) visits the keys in that order. `ToMap` is the
 * mathematical map it stands for.
 */
module TreeMaps {
  import opened JavaStrings

  datatype TreeMap<V> = TreeMap(entries: seq<(string, V)>) {

    /** Keys strictly ascending, hence distinct. */
    predicate Valid()
    {
      forall i, j :: 0 <= i < j < |entries| ==> Less(entries[i].0, entries[j].0)
    }

    /** `keySet()` as a set. */
    function KeySet(): set<string>
    {
      set i | 0 <= i < |entries| :: entries[i].0
    }

    /** `keySet()` in iteration order: the entries' keys, one per entry (see `KeysOfMap`). */
    function Keys(): (ks: seq<string>)
      // solver aid: the comprehension's length and elements, for callers indexing `Keys()`
      ensures |ks| == |entries|
      ensures forall i :: 0 <= i < |entries| ==> ks[i] == entries[i].0
    {
      seq(|entries|, i requires 0 <= i < |entries| => entries[i].0)
    }

    /** The map this TreeMap stands for. */
    function ToMap(): (m: map<string, V>)
      ensures m.Keys == KeySet()
      decreases |entries|
    {
      if entries == [] then map[]
      else
        var rest := TreeMap(entries[1..]).ToMap();
        assert rest.Keys + {entries[0].0} == KeySet() by {
          assert TreeMap(entries[1..]).KeySet() + {entries[0].0} == KeySet() by {
            forall k | k in KeySet() ensures k in TreeMap(entries[1..]).KeySet() + {entries[0].0} {
              var i :| 0 <= i < |entries| && entries[i].0 == k;
              if i > 0 { assert entries[1..][i - 1].0 == k; }
            }
          }
        }
        rest[entries[0].0 := entries[0].1]
    }

    /** `put(k, v)`: replaces the value of a present key in place, inserts a new key in order. */
    function Put(k: string, v: V): (r: TreeMap<V>)
      requires Valid()
      ensures r.Valid()
      ensures r.ToMap() == ToMap()[k := v]
      decreases |entries|
    {
      if entries == [] then TreeMap([(k, v)])
      else if entries[0].0 == k then
        PutAtHead(this, v);
        TreeMap([(k, v)] + entries[1..])
      else if Less(k, entries[0].0) then
        PrependValid(k, v, this);
        ToMapCons((k, v), entries);
        TreeMap([(k, v)] + entries)
      else
        TailValid(this);
        var r' := TreeMap(entries[1..]).Put(k, v);
        LessTotal(k, entries[0].0);
        PutBehindHead(this, k, v, r');
        TreeMap([entries[0]] + r'.entries)
    }

    /** `lastKey()`: the greatest key. */
    function LastKey(): (k: string)
      requires Valid() && entries != []
      ensures k in KeySet()
      ensures forall k' :: k' in KeySet() && k' != k ==> Less(k', k)
    {
      entries[|entries| - 1].0
    }

    /** `putAll(other)`: puts the entries of `other` in its own key order. */
    function PutAll(other: TreeMap<V>): (r: TreeMap<V>)
      requires Valid() && other.Valid()
      ensures r.Valid()
      ensures r.ToMap() == ToMap() + other.ToMap()
      decreases |other.entries|
    {
      if other.entries == [] then this
      else
        var rest := TreeMap(other.entries[1..]);
        var (k, v) := other.entries[0];
        TailValid(other);
        HeadBelowTail(other);
        LessIrreflexive(k);
        ToMapCons(other.entries[0], other.entries[1..]);
        assert other.entries == [other.entries[0]] + other.entries[1..];
        UnionUpdate(ToMap(), rest.ToMap(), k, v);
        Put(k, v).PutAll(rest)
    }
  }

  /** `keySet()` of a sorted map iterates every key of the map, and only those, in ascending order. */
  lemma KeysOfMap<V>(m: TreeMap<V>)
    requires m.Valid()
    ensures forall k :: k in m.Keys() <==> k in m.ToMap()
    ensures forall i, j :: 0 <= i < j < |m.Keys()| ==> Less(m.Keys()[i], m.Keys()[j])
  {
    KeysInMap(m);
  }

  /** Every entry's key is a key of the map view. */
  lemma KeysInMap<V>(m: TreeMap<V>)
    ensures forall i :: 0 <= i < |m.entries| ==> m.entries[i].0 in m.ToMap()
  {
    assert forall i :: 0 <= i < |m.entries| ==> m.entries[i].0 in m.KeySet();
  }

  /** The empty TreeMap, `new TreeMap<>()`. */
  function Empty<V>(): (m: TreeMap<V>)
    ensures m.Valid() && m.ToMap() == map[]
  {
    TreeMap([])
  }

  /** Unfolding ToMap once. */
  lemma ToMapCons<V>(e: (string, V), es: seq<(string, V)>)
    ensures TreeMap([e] + es).ToMap() == TreeMap(es).ToMap()[e.0 := e.1]
  {
    assert ([e] + es)[1..] == es;
  }

  lemma TailValid<V>(m: TreeMap<V>)
    requires m.Valid() && m.entries != []
    ensures TreeMap(m.entries[1..]).Valid()
  {
  }

  /** The first key is below every key of the rest. */
  lemma HeadBelowTail<V>(m: TreeMap<V>)
    requires m.Valid() && m.entries != []
    ensures forall k :: k in TreeMap(m.entries[1..]).KeySet() ==> Less(m.entries[0].0, k)
  {
    forall k | k in TreeMap(m.entries[1..]).KeySet() ensures Less(m.entries[0].0, k) {
      var i :| 0 <= i < |m.entries[1..]| && m.entries[1..][i].0 == k;
      assert m.entries[i + 1].0 == k;
    }
  }

  /** An entry below every key of a valid TreeMap may go in front of it. */
  lemma ConsValid<V>(e: (string, V), m: TreeMap<V>)
    requires m.Valid()
    requires forall k :: k in m.KeySet() ==> Less(e.0, k)
    ensures TreeMap([e] + m.entries).Valid()
  {
    var es := [e] + m.entries;
    forall i, j | 0 <= i < j < |es| ensures Less(es[i].0, es[j].0) {
      if i == 0 {
        assert es[j].0 == m.entries[j - 1].0;
        assert es[j].0 in m.KeySet();
      } else {
        assert es[i] == m.entries[i - 1] && es[j] == m.entries[j - 1];
      }
    }
  }

  /** Put on the key of the first entry. */
  lemma PutAtHead<V>(m: TreeMap<V>, v: V)
    requires m.Valid() && m.entries != []
    ensures TreeMap([(m.entries[0].0, v)] + m.entries[1..]).Valid()
    ensures TreeMap([(m.entries[0].0, v)] + m.entries[1..]).ToMap() == m.ToMap()[m.entries[0].0 := v]
  {
    var k := m.entries[0].0;
    var tail := m.entries[1..];
    PutAtHeadValid(m, v);
    ToMapCons((k, v), tail);
    ToMapCons(m.entries[0], tail);
    assert [m.entries[0]] + tail == m.entries;
    UpdateTwice(TreeMap(tail).ToMap(), k, m.entries[0].1, v);
  }

  lemma PutAtHeadValid<V>(m: TreeMap<V>, v: V)
    requires m.Valid() && m.entries != []
    ensures TreeMap([(m.entries[0].0, v)] + m.entries[1..]).Valid()
  {
    HeadBelowTail(m);
    ConsValid((m.entries[0].0, v), TreeMap(m.entries[1..]));
  }

  /** Put of a key above the first one: the first entry stays in front of the updated rest. */
  lemma PutBehindHead<V>(m: TreeMap<V>, k: string, v: V, r': TreeMap<V>)
    requires m.Valid() && m.entries != [] && Less(m.entries[0].0, k)
    requires r'.Valid() && r'.ToMap() == TreeMap(m.entries[1..]).ToMap()[k := v]
    ensures TreeMap([m.entries[0]] + r'.entries).Valid()
    ensures TreeMap([m.entries[0]] + r'.entries).ToMap() == m.ToMap()[k := v]
  {
    PutBehindHeadValid(m, k, r');
    LessIrreflexive(k);
    ToMapCons(m.entries[0], r'.entries);
    ToMapCons(m.entries[0], m.entries[1..]);
    assert m.entries == [m.entries[0]] + m.entries[1..];
    UpdateCommute(TreeMap(m.entries[1..]).ToMap(), k, v, m.entries[0].0, m.entries[0].1);
  }

  lemma PutBehindHeadValid<V>(m: TreeMap<V>, k: string, r': TreeMap<V>)
    requires m.Valid() && m.entries != [] && Less(m.entries[0].0, k)
    requires r'.Valid() && r'.KeySet() == TreeMap(m.entries[1..]).KeySet() + {k}
    ensures TreeMap([m.entries[0]] + r'.entries).Valid()
  {
    HeadBelowTail(m);
    ConsValid(m.entries[0], r');
  }

  lemma UnionUpdate<V>(t: map<string, V>, u: map<string, V>, k: string, v: V)
    requires k !in u
    ensures t[k := v] + u == t + u[k := v]
  {
  }

  /** A second update of a key replaces the first. */
  lemma UpdateTwice<V>(t: map<string, V>, k: string, x: V, y: V)
    ensures t[k := x][k := y] == t[k := y]
  {
  }

  lemma UpdateCommute<V>(t: map<string, V>, a: string, x: V, b: string, y: V)
    requires a != b
    ensures t[a := x][b := y] == t[b := y][a := x]
  {
  }

  lemma PrependValid<V>(k: string, v: V, m: TreeMap<V>)
    requires m.Valid() && m.entries != [] && Less(k, m.entries[0].0)
    ensures TreeMap([(k, v)] + m.entries).Valid()
  {
    forall k' | k' in m.KeySet() ensures Less(k, k') {
      var i :| 0 <= i < |m.entries| && m.entries[i].0 == k';
      if i > 0 {
        LessTransitive(k, m.entries[0].0, k');
      }
    }
    ConsValid((k, v), m);
  }

  /** In a valid TreeMap every entry is what the map holds for its key. */
  lemma {:induction false} ToMapAt<V>(m: TreeMap<V>, i: nat)
    requires m.Valid() && i < |m.entries|
    ensures m.entries[i].0 in m.ToMap() && m.ToMap()[m.entries[i].0] == m.entries[i].1
    decreases i
  {
    if i > 0 {
      var tail := TreeMap(m.entries[1..]);
      assert tail.Valid();
      ToMapAt(tail, i - 1);
      assert tail.entries[i - 1] == m.entries[i];
      assert m.entries[i].0 != m.entries[0].0 by {
        LessIrreflexive(m.entries[0].0);
      }
    }
  }

  /** Sum of the values of a counter map. */
  function Sum(m: TreeMap<int>): int
    decreases |m.entries|
  {
    if m.entries == [] then 0 else m.entries[0].1 + Sum(TreeMap(m.entries[1..]))
  }

  /** Putting `v` under `k` changes the sum by `v` minus what `k` held before. */
  lemma {:induction false} SumPut(m: TreeMap<int>, k: string, v: int)
    requires m.Valid()
    ensures Sum(m.Put(k, v)) == Sum(m) - (if k in m.ToMap() then m.ToMap()[k] else 0) + v
    decreases |m.entries|
  {
    if m.entries != [] && m.entries[0].0 != k && !Less(k, m.entries[0].0) {
      var tail := TreeMap(m.entries[1..]);
      assert tail.Valid();
      SumPut(tail, k, v);
      var r := m.Put(k, v);
      assert r.entries == [m.entries[0]] + tail.Put(k, v).entries;
      assert TreeMap(r.entries[1..]) == tail.Put(k, v);
    } else if m.entries != [] && m.entries[0].0 == k {
      ToMapAt(m, 0);
      var r := m.Put(k, v);
      assert TreeMap(r.entries[1..]) == TreeMap(m.entries[1..]);
    } else if m.entries != [] {
      var r := m.Put(k, v);
      assert TreeMap(r.entries[1..]) == m;
      assert k !in m.ToMap() by {
        if k in m.KeySet() {
          var i :| 0 <= i < |m.entries| && m.entries[i].0 == k;
          if i > 0 {
            LessTransitive(k, m.entries[0].0, k);
          }
          LessIrreflexive(k);
        }
      }
    }
  }
}
