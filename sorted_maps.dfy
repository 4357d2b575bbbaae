/** BTreeMap<Key, V>, keyed by the Key of src/table.rs or by that of
    src/lib.rs, as the sequence of its entries in iteration order. */
module SortedMaps {
  import opened Wrappers
  import opened Strings
  import opened Keys

  /** Each key is Less than the next one. */
  predicate Sorted<V>(m: seq<(Key, V)>)
  {
    forall i :: 0 <= i < |m| - 1 ==> Cmp(m[i].0, m[i + 1].0) == Less
  }

  /** BTreeMap::insert, searching from the smallest key: the first entry
      whose key compares Equal gets the new value and keeps its key;
      otherwise the entry goes before the first key that is greater. */
  function Insert<V>(m: seq<(Key, V)>, k: Key, v: V): seq<(Key, V)>
  {
    if |m| == 0 then [(k, v)]
    else
      match Cmp(k, m[0].0)
      case Greater => [m[0]] + Insert(m[1..], k, v)
      case Equal => [(m[0].0, v)] + m[1..]
      case Less => [(k, v)] + m
  }

  /** Insertion keeps the entries sorted. */
  lemma {:induction false} InsertSorted<V>(m: seq<(Key, V)>, k: Key, v: V)
    requires Sorted(m)
    ensures Sorted(Insert(m, k, v))
    ensures Insert(m, k, v)[0].0 == k || (|m| > 0 && Insert(m, k, v)[0].0 == m[0].0)
  {
    if |m| > 0 {
      match Cmp(k, m[0].0)
      case Greater =>
        var tail := m[1..];
        assert Sorted(tail) by {
          forall i | 0 <= i < |tail| - 1
            ensures Cmp(tail[i].0, tail[i + 1].0) == Less
          {
            assert tail[i] == m[i + 1] && tail[i + 1] == m[i + 2];
          }
        }
        InsertSorted(tail, k, v);
        CmpReverse(k, m[0].0);
        var r := Insert(m, k, v);
        assert r == [m[0]] + Insert(tail, k, v);
        assert forall i :: 1 <= i < |r| ==> r[i] == Insert(tail, k, v)[i - 1];
      case Equal =>
      case Less =>
    }
  }

  /** A key that compares Equal to an entry, and Greater to all entries
      before it, replaces that entry's value and nothing else. */
  lemma {:induction false} InsertReplaces<V>(m: seq<(Key, V)>, k: Key, v: V, j: nat)
    requires j < |m| && Cmp(k, m[j].0) == Equal
    requires forall i :: 0 <= i < j ==> Cmp(k, m[i].0) == Greater
    ensures Insert(m, k, v) == m[j := (m[j].0, v)]
  {
    if j > 0 {
      InsertReplaces(m[1..], k, v, j - 1);
      assert m[j := (m[j].0, v)] == [m[0]] + m[1..][j - 1 := (m[j].0, v)];
    }
  }

  /** A key that compares Greater to the first `j` entries, and Less to the
      next one if there is one, is inserted at `j`. */
  lemma {:induction false} InsertAdds<V>(m: seq<(Key, V)>, k: Key, v: V, j: nat)
    requires j <= |m| && (j == |m| || Cmp(k, m[j].0) == Less)
    requires forall i :: 0 <= i < j ==> Cmp(k, m[i].0) == Greater
    ensures Insert(m, k, v) == m[..j] + [(k, v)] + m[j..]
  {
    if j > 0 {
      InsertAdds(m[1..], k, v, j - 1);
      assert m[..j] == [m[0]] + m[1..][..j - 1];
      assert m[j..] == m[1..][j - 1..];
    }
  }

  // ---------------------------------------------------------------------
  // The BTreeMap of src/lib.rs, ordered by its own Key

  /** BTreeMap::insert under the Ord of the Key of src/lib.rs, searching
      from the smallest key; a comparison that has no ordering panics. */
  function LegacyInsert<V>(m: seq<(Key, V)>, k: Key, v: V): Result<seq<(Key, V)>>
  {
    if |m| == 0 then Ok([(k, v)])
    else
      var c :- LegacyCmp(k, m[0].0);
      match c
      case Greater =>
        var rest :- LegacyInsert(m[1..], k, v);
        Ok([m[0]] + rest)
      case Equal => Ok([(m[0].0, v)] + m[1..])
      case Less => Ok([(k, v)] + m)
  }

  /** The keys are the row-number keys `base`, `base + 1`, ... in order. */
  ghost predicate NumberedFrom<V>(m: seq<(Key, V)>, base: nat)
  {
    forall i :: 0 <= i < |m| ==> m[i].0 == IntegerKey(base + i)
  }

  /** The row-number key after the last one goes at the end. */
  lemma {:induction false} LegacyInsertLast<V>(m: seq<(Key, V)>, base: nat, v: V)
    requires NumberedFrom(m, base) && base + |m| <= I64_MAX
    ensures LegacyInsert(m, IntegerKey(base + |m|), v) == Ok(m + [(IntegerKey(base + |m|), v)])
  {
    if |m| > 0 {
      var k := IntegerKey(base + |m|);
      assert m[0].0 == IntegerKey(base);
      LegacyIntegerKeys(base + |m|, base);
      var tail := m[1..];
      assert NumberedFrom(tail, base + 1) by {
        forall i | 0 <= i < |tail|
          ensures tail[i].0 == IntegerKey(base + 1 + i)
        {
          assert tail[i] == m[i + 1];
        }
      }
      assert base + 1 + |tail| == base + |m|;
      LegacyInsertLast(tail, base + 1, v);
      assert LegacyCmp(k, m[0].0) == Ok(Greater);
      assert LegacyInsert(tail, k, v) == Ok(tail + [(k, v)]);
      assert LegacyInsert(m, k, v) == Ok([m[0]] + (tail + [(k, v)]));
      assert [m[0]] + (tail + [(k, v)]) == m + [(k, v)];
    } else {
      assert m + [(IntegerKey(base), v)] == [(IntegerKey(base), v)];
    }
  }
}
