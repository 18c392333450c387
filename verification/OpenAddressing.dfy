/** Open addressing with linear probing, as gbmgif.c and gbmhist.c use it.

    Entries are numbered 0, 1, 2, ... in the order they are added. A slot of the table holds `empty`
    or `base` plus the number of an entry. Entry i is looked for from slot starts[i] on and sits in
    slot slots[i]. */
module OpenAddressing {
  import opened Counting

  datatype Marks = Marks(base: int, empty: int)

  /** The slot d steps after `start`, wrapping round at the end of the table. */
  function Slot(size: nat, start: nat, d: nat): nat
    requires start < size && d < size
  {
    if start + d < size then start + d else start + d - size
  }

  function Distance(size: nat, start: nat, j: nat): (d: nat)
    requires start < size && j < size
    ensures d < size && Slot(size, start, d) == j
  {
    if start <= j then j - start else j + size - start
  }

  /** Slots and entries correspond one to one. */
  ghost predicate Placed(m: Marks, table: seq<int>, slots: seq<nat>) {
    && (m.empty < m.base || m.empty >= m.base + |slots|)
    && (forall i :: 0 <= i < |slots| ==> slots[i] < |table| && table[slots[i]] == m.base + i)
    && (forall j :: 0 <= j < |table| && table[j] != m.empty ==>
          m.base <= table[j] < m.base + |slots| && slots[table[j] - m.base] == j)
  }

  /** Every entry sits where probing from its start finds it. */
  ghost predicate Indexed(m: Marks, table: seq<int>, starts: seq<nat>, slots: seq<nat>) {
    && Placed(m, table, slots)
    && |starts| == |slots|
    && forall i :: 0 <= i < |slots| ==>
         starts[i] < |table| && Unbroken(m, table, starts[i], Distance(|table|, starts[i], slots[i]))
  }

  /** The first n slots probed from `start` are all in use. */
  ghost predicate Unbroken(m: Marks, table: seq<int>, start: nat, n: nat)
    requires start < |table| && n <= |table|
  {
    forall d: nat :: d < n ==> table[Slot(|table|, start, d)] != m.empty
  }

  lemma EmptyTable(m: Marks, table: seq<int>)
    requires m.empty != m.base && forall j :: 0 <= j < |table| ==> table[j] == m.empty
    ensures Indexed(m, table, [], [])
  {
  }

  /** Probing from the start of an entry meets it before any empty slot. */
  lemma ProbeMeets(m: Marks, table: seq<int>, starts: seq<nat>, slots: seq<nat>, i: nat, d: nat)
    requires Indexed(m, table, starts, slots) && i < |slots| && d < |table|
    ensures table[Slot(|table|, starts[i], d)] == m.empty ==>
              exists d': nat :: d' < d && table[Slot(|table|, starts[i], d')] == m.base + i
  {
    var d' := Distance(|table|, starts[i], slots[i]);
    assert Slot(|table|, starts[i], d') == slots[i];
    assert Unbroken(m, table, starts[i], d');
  }

  /** A new entry may take the first empty slot its probe meets. */
  lemma Add(m: Marks, table: seq<int>, starts: seq<nat>, slots: seq<nat>, start: nat, d: nat, v: int)
    requires Indexed(m, table, starts, slots) && v == m.base + |slots|
    requires start < |table| && d < |table| && Unbroken(m, table, start, d)
    requires table[Slot(|table|, start, d)] == m.empty
    requires m.empty < m.base || m.empty > m.base + |slots|
    ensures var j := Slot(|table|, start, d);
            Indexed(m, table[j := v], starts + [start], slots + [j])
  {
    var j, n := Slot(|table|, start, d), |slots|;
    var table', starts', slots' := table[j := v], starts + [start], slots + [j];
    assert Distance(|table|, start, j) == d;
    PlaceEntry(m, table, slots, j);
    forall i | 0 <= i <= n
      ensures Unbroken(m, table', starts'[i], Distance(|table|, starts'[i], slots'[i]))
    {
      if i < n {
        KeepUnbroken(m, table, starts[i], Distance(|table|, starts[i], slots[i]), j, v);
      } else {
        KeepUnbroken(m, table, start, d, j, v);
      }
    }
  }

  lemma PlaceEntry(m: Marks, table: seq<int>, slots: seq<nat>, j: nat)
    requires Placed(m, table, slots) && j < |table| && table[j] == m.empty
    requires m.empty < m.base || m.empty > m.base + |slots|
    ensures Placed(m, table[j := m.base + |slots|], slots + [j])
  {
  }

  lemma KeepUnbroken(m: Marks, table: seq<int>, start: nat, n: nat, j: nat, v: int)
    requires start < |table| && n <= |table| && j < |table| && v != m.empty
    requires Unbroken(m, table, start, n)
    ensures Unbroken(m, table[j := v], start, n)
  {
  }

  // ---- a table with fewer entries than slots has an empty slot ----

  lemma UsedSlot(m: Marks, table: seq<int>, slots: seq<nat>, j: nat)
    requires Placed(m, table, slots) && j < |table|
    ensures table[j] != m.empty ==> j in slots
  {
    if table[j] != m.empty {
      assert slots[table[j] - m.base] == j;
    }
  }

  lemma HasEmpty(m: Marks, table: seq<int>, starts: seq<nat>, slots: seq<nat>)
    requires Indexed(m, table, starts, slots) && |slots| < |table|
    ensures exists j :: 0 <= j < |table| && table[j] == m.empty
  {
    if Below(|table|) <= Elements(slots) {
      SubsetSize(Below(|table|), Elements(slots));
    }
    var j :| j in Below(|table|) && j !in Elements(slots);
    UsedSlot(m, table, slots, j);
  }

  /** So an unbroken probe is shorter than the table. */
  lemma ProbeEnds(m: Marks, table: seq<int>, starts: seq<nat>, slots: seq<nat>, start: nat, d: nat)
    requires Indexed(m, table, starts, slots) && |slots| < |table|
    requires start < |table| && d <= |table| && Unbroken(m, table, start, d)
    ensures d < |table|
  {
    HasEmpty(m, table, starts, slots);
    var j :| 0 <= j < |table| && table[j] == m.empty;
    assert Slot(|table|, start, Distance(|table|, start, j)) == j;
  }
}
