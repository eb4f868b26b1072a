/** The index cursors the LessEq cursor wraps, given abstract semantics: an
    index is a sequence of entries in ascending (value, id) order, and a
    cursor over it is a position between or on entries. */
module IndexCursor {

  /** An index entry: the attribute value the index is keyed on and the id of
      the directory entry that holds it. */
  datatype IndexEntry = IndexEntry(value: int, id: int)

  /** `a` comes strictly before `b` in index order: by value, then by id. */
  predicate Precedes(a: IndexEntry, b: IndexEntry)
  {
    a.value < b.value || (a.value == b.value && a.id < b.id)
  }

  /** The entries are in ascending index order. */
  predicate Sorted(s: seq<IndexEntry>)
  {
    forall i, j | 0 <= i < j < |s| :: !Precedes(s[j], s[i])
  }

  /** A cursor position over `n` entries: `Gap(k)` lies just before entry `k`
      (so `Gap(0)` is before the first entry and `Gap(n)` after the last),
      `On(k)` is on entry `k`. */
  datatype Position = Gap(at: nat) | On(at: nat)

  predicate ValidPosition(p: Position, n: nat)
  {
    if p.Gap? then p.at <= n else p.at < n
  }

  /** The index of the entry a forward step moves onto; a backward step moves
      onto an entry below `p.at`. */
  function Ahead(p: Position): nat
  {
    if p.Gap? then p.at else p.at + 1
  }

  /** How many leading entries satisfy `p`: for an ascending index and a
      predicate that holds of a prefix of the index order, the position of the
      first entry that does not. */
  function PrefixLength(s: seq<IndexEntry>, p: IndexEntry -> bool): (k: nat)
    ensures k <= |s|
    ensures forall j | 0 <= j < k :: p(s[j])
    ensures k < |s| ==> !p(s[k])
  {
    if s == [] || !p(s[0]) then 0 else 1 + PrefixLength(s[1..], p)
  }

  /** Where `before(key)` puts a cursor: before the first entry not preceding `key`. */
  function LowerBound(s: seq<IndexEntry>, key: IndexEntry): nat
  {
    PrefixLength(s, (e: IndexEntry) => Precedes(e, key))
  }

  /** Where `after(key)` puts a cursor: after the last entry not following `key`. */
  function UpperBound(s: seq<IndexEntry>, key: IndexEntry): nat
  {
    PrefixLength(s, (e: IndexEntry) => !Precedes(key, e))
  }

  /** Where `after` an entry with value `v` and no id puts a cursor: after
      every entry whose value is at most `v`. */
  function ValueUpperBound(s: seq<IndexEntry>, v: int): nat
  {
    PrefixLength(s, (e: IndexEntry) => e.value <= v)
  }

  /** In an ascending index, values never decrease. */
  lemma SortedValues(s: seq<IndexEntry>, i: nat, j: nat)
    requires Sorted(s)
    requires i <= j < |s|
    ensures s[i].value <= s[j].value
  {
    if i < j {
      assert !Precedes(s[j], s[i]);
    }
  }

  /** In an ascending index, every entry from `ValueUpperBound(s, v)` on has a
      value above `v`, so the entries with value at most `v` are exactly the
      ones before it. */
  lemma ValueUpperBoundSplits(s: seq<IndexEntry>, v: int)
    requires Sorted(s)
    ensures forall j | 0 <= j < ValueUpperBound(s, v) :: s[j].value <= v
    ensures forall j | ValueUpperBound(s, v) <= j < |s| :: s[j].value > v
  {
    var k := ValueUpperBound(s, v);
    forall j | k <= j < |s|
      ensures s[j].value > v
    {
      SortedValues(s, k, j);
    }
  }

  /** Keys below `v` are positioned no further than the entries with value at most `v`. */
  lemma BoundsBelowValue(s: seq<IndexEntry>, key: IndexEntry, v: int)
    requires key.value < v
    ensures LowerBound(s, key) <= ValueUpperBound(s, v)
    ensures UpperBound(s, key) <= ValueUpperBound(s, v)
  {
    var b := ValueUpperBound(s, v);
    if b < |s| {
      assert s[b].value > v;
      assert !Precedes(s[b], key);
      assert Precedes(key, s[b]);
    }
  }
}
