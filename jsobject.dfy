/**
 * The two JavaScript object operations the claim script relies on:
 * `Object.fromEntries`, and the order in which `Object.entries` lists an
 * object whose keys are all array indices (canonical decimal strings).
 */
module JsObject {
  import opened Decimal

  type Entry<V> = (string, V)

  /** The keys carried by `entries`. */
  function KeysOf<V>(entries: seq<Entry<V>>): set<string>
  {
    set i | 0 <= i < |entries| :: entries[i].0
  }

  /** `Object.fromEntries(entries)`: a later entry overwrites an earlier one with the same key. */
  function FromEntries<V>(entries: seq<Entry<V>>): (m: map<string, V>)
    ensures m.Keys == KeysOf(entries)
    ensures forall i :: 0 <= i < |entries| && NotOverwritten(entries, i) ==> entries[i].0 in m && m[entries[i].0] == entries[i].1
  {
    if entries == [] then map[]
    else
      var init, last := entries[..|entries| - 1], entries[|entries| - 1];
      var m := FromEntries(init)[last.0 := last.1];
      KeysOfSnoc(init, last);
      assert entries == init + [last];
      LastWins(init, last, FromEntries(init));
      m
  }

  lemma KeysOfSnoc<V>(init: seq<Entry<V>>, last: Entry<V>)
    ensures KeysOf(init + [last]) == KeysOf(init) + {last.0}
  {
    var entries := init + [last];
    forall k | k in KeysOf(entries) ensures k in KeysOf(init) + {last.0} {
      var i :| 0 <= i < |entries| && entries[i].0 == k;
      if i < |init| { assert init[i] == entries[i]; }
    }
    forall k | k in KeysOf(init) ensures k in KeysOf(entries) {
      var i :| 0 <= i < |init| && init[i].0 == k;
      assert entries[i] == init[i];
    }
    assert entries[|init|] == last;
  }

  /** No entry after index `i` carries its key. */
  predicate NotOverwritten<V>(entries: seq<Entry<V>>, i: nat)
    requires i < |entries|
  {
    forall j :: i < j < |entries| ==> entries[j].0 != entries[i].0
  }

  /** One step of `FromEntries`: the last entry's value stands, and so do the earlier ones it does not overwrite. */
  lemma LastWins<V>(init: seq<Entry<V>>, last: Entry<V>, prev: map<string, V>)
    requires forall i :: 0 <= i < |init| && NotOverwritten(init, i) ==> init[i].0 in prev && prev[init[i].0] == init[i].1
    ensures var entries, m := init + [last], prev[last.0 := last.1];
      forall i :: 0 <= i < |entries| && NotOverwritten(entries, i) ==> entries[i].0 in m && m[entries[i].0] == entries[i].1
  {
    var entries, m := init + [last], prev[last.0 := last.1];
    forall i | 0 <= i < |entries| && NotOverwritten(entries, i)
      ensures entries[i].0 in m && m[entries[i].0] == entries[i].1
    {
      if i < |init| {
        assert entries[|init|] == last;
        assert NotOverwritten(init, i) by {
          forall j | i < j < |init| ensures init[j].0 != init[i].0 {
            assert entries[j] == init[j];
          }
        }
      }
    }
  }

  /** When equal keys always carry equal values, every entry survives `FromEntries`. */
  lemma FromEntriesKeepsConsistentEntries<V>(entries: seq<Entry<V>>)
    requires forall i, j :: 0 <= i < |entries| && 0 <= j < |entries| && entries[i].0 == entries[j].0
                            ==> entries[i].1 == entries[j].1
    ensures forall i :: 0 <= i < |entries| ==> entries[i].0 in FromEntries(entries)
                                               && FromEntries(entries)[entries[i].0] == entries[i].1
  {
    var m := FromEntries(entries);
    forall i | 0 <= i < |entries| ensures entries[i].0 in m && m[entries[i].0] == entries[i].1 {
      var last := LastWithKey(entries, i);
      assert entries[last].0 in m;
    }
  }

  /** The last index carrying the same key as index `i`. */
  lemma LastWithKey<V>(entries: seq<Entry<V>>, i: nat) returns (last: nat)
    requires i < |entries|
    ensures i <= last < |entries| && entries[last].0 == entries[i].0
    ensures NotOverwritten(entries, last)
    decreases |entries| - i
  {
    if j :| i < j < |entries| && entries[j].0 == entries[i].0 {
      last := LastWithKey(entries, j);
    } else {
      last := i;
    }
  }

  /** The numeric value of an array-index key; zero for any other key. */
  function IndexValue(k: string): nat
  {
    if IsDigits(k) then DigitsValue(k) else 0
  }

  /** The keys of `entries` strictly ascend as numbers. */
  ghost predicate KeysAscending<V>(entries: seq<Entry<V>>)
  {
    forall i, j :: 0 <= i < j < |entries| ==> IndexValue(entries[i].0) < IndexValue(entries[j].0)
  }

  /**
   * `entries` is what `Object.entries(m)` returns for an object `m` whose
   * keys are all array indices: every entry of `m` exactly once, in
   * ascending numeric order of the keys.
   */
  ghost predicate IsEntriesOf<V>(m: map<string, V>, entries: seq<Entry<V>>)
  {
    && (forall k :: k in m ==> IsCanonical(k))
    && (forall i :: 0 <= i < |entries| ==> entries[i].0 in m && m[entries[i].0] == entries[i].1)
    && (forall k :: k in m ==> exists i :: 0 <= i < |entries| && entries[i].0 == k)
    && KeysAscending(entries)
  }

  /** The ordering rule determines `Object.entries` completely. */
  lemma {:induction false} EntriesOfIsUnique<V>(m: map<string, V>, a: seq<Entry<V>>, b: seq<Entry<V>>)
    requires IsEntriesOf(m, a) && IsEntriesOf(m, b)
    ensures a == b
    decreases |a|
  {
    if a == [] {
      if b != [] {
        assert false;
      }
    } else {
      var _ := Position(m, b, a[0].0);
      FirstKeysAgree(m, a, b);
      TailIsEntriesOf(m, a);
      TailIsEntriesOf(m, b);
      EntriesOfIsUnique(m - {a[0].0}, a[1..], b[1..]);
      assert a == [a[0]] + a[1..] && b == [b[0]] + b[1..];
    }
  }

  /** Both listings start with the key of least value. */
  lemma FirstKeysAgree<V>(m: map<string, V>, a: seq<Entry<V>>, b: seq<Entry<V>>)
    requires IsEntriesOf(m, a) && IsEntriesOf(m, b) && a != [] && b != []
    ensures a[0] == b[0]
  {
    if a[0].0 != b[0].0 {
      var ib := Position(m, b, a[0].0);
      var ia := Position(m, a, b[0].0);
    }
  }

  /** Where a key of the object sits in its listing. */
  lemma Position<V>(m: map<string, V>, entries: seq<Entry<V>>, k: string) returns (i: nat)
    requires IsEntriesOf(m, entries) && k in m
    ensures i < |entries| && entries[i].0 == k
  {
    i :| 0 <= i < |entries| && entries[i].0 == k;
  }

  /** Dropping the first entry leaves the entries of the rest of the object. */
  lemma TailIsEntriesOf<V>(m: map<string, V>, entries: seq<Entry<V>>)
    requires IsEntriesOf(m, entries) && entries != []
    ensures IsEntriesOf(m - {entries[0].0}, entries[1..])
  {
    var k, t := entries[0].0, entries[1..];
    var rest := m - {k};
    assert forall i :: 0 <= i < |t| ==> t[i] == entries[i + 1];
    forall i | 0 <= i < |t| ensures t[i].0 in rest && rest[t[i].0] == t[i].1 {
      assert IndexValue(k) < IndexValue(entries[i + 1].0);
    }
    forall key | key in rest ensures exists i :: 0 <= i < |t| && t[i].0 == key {
      var i :| 0 <= i < |entries| && entries[i].0 == key;
      assert t[i - 1].0 == key;
    }
    assert KeysAscending(t);
  }
}
