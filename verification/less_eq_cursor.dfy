/** The cursor over the candidates of an `attribute <= bound` search filter.

    When the attribute has an index, the cursor walks that index, which is in
    ascending value order, and stops at the bound. Otherwise it walks the entry
    UUID index over every entry and asks the filter's evaluator about each one.
    Every operation is a function from the cursor before the call to the cursor
    after it. An exception becomes a `Failure`. */
module LessEqCursor {
  import opened Wrappers
  import opened IndexCursor

  /** Which cursor does the walking: the index on the filter's attribute, or,
      when that attribute has no index, the entry UUID index. */
  datatype Mode = UserIndex | FullScan

  /** What is fixed when the cursor is built: the mode, the entries of the
      wrapped index cursor, the filter's upper bound, and the entries the
      filter's evaluator accepts (what a full scan tests each candidate with). */
  datatype Setup = Setup(mode: Mode, entries: seq<IndexEntry>, bound: int, accepted: set<IndexEntry>)

  /** The cursor: its setup, the position of the wrapped cursor, whether an
      entry is available, and the candidate a full scan last looked at. */
  datatype Cursor = Cursor(setup: Setup, pos: Position, available: bool, candidate: Option<IndexEntry>)

  datatype CursorError =
    | InvalidPosition  // `get` with nothing available
    | Unsupported      // positioning on a value during a full scan

  /** The cursor after a step, and whether the step landed on a candidate. */
  datatype Step = Step(cursor: Cursor, found: bool)

  /** `e` passes the filter: by its value in an attribute index, by the
      evaluator's verdict in a full scan. */
  predicate Matches(s: Setup, e: IndexEntry)
  {
    if s.mode == UserIndex then e.value <= s.bound else e in s.accepted
  }

  /** The shape every reachable cursor has: the position lies in the index, an
      available cursor sits on an entry, and in a full scan that entry is the
      remembered candidate. */
  predicate Consistent(c: Cursor)
  {
    && ValidPosition(c.pos, |c.setup.entries|)
    && (c.available ==> c.pos.On?)
    && (c.available && c.setup.mode == FullScan ==> c.candidate == Some(c.setup.entries[c.pos.at]))
  }

  /** A consistent cursor whose available entry passes the filter. */
  predicate Valid(c: Cursor)
  {
    Consistent(c) && (c.available ==> Matches(c.setup, c.setup.entries[c.pos.at]))
  }

  /** The number of leading index entries at or below the bound. */
  function Boundary(s: Setup): nat
  {
    ValueUpperBound(s.entries, s.bound)
  }

  /** The next forward step of the wrapped cursor cannot pass the bound. */
  predicate WithinBound(c: Cursor)
  {
    Ahead(c.pos) <= Boundary(c.setup)
  }

  /** Builds the cursor: over the attribute's index when there is one, over the
      entry UUID index otherwise. Exactly one wrapped cursor is used. */
  function Create(hasIndexOn: bool, attributeIndex: seq<IndexEntry>, entryUuidIndex: seq<IndexEntry>,
                  bound: int, accepted: set<IndexEntry>): (c: Cursor)
    ensures c.setup.mode == UserIndex <==> hasIndexOn
    ensures c.setup.entries == (if hasIndexOn then attributeIndex else entryUuidIndex)
    ensures c.setup.bound == bound && c.setup.accepted == accepted
    ensures Valid(c) && !c.available && c.pos == Gap(0)
  {
    var mode := if hasIndexOn then UserIndex else FullScan;
    var entries := if hasIndexOn then attributeIndex else entryUuidIndex;
    Cursor(Setup(mode, entries, bound, accepted), Gap(0), false, None)
  }

  // ---------------------------------------------------------------------------
  // Walking
  // ---------------------------------------------------------------------------

  /** The first entry at or after `k` that passes the filter, or the end of
      the index when none does. */
  function FirstMatchFrom(s: Setup, k: nat): (r: nat)
    requires k <= |s.entries|
    ensures k <= r <= |s.entries|
    ensures r < |s.entries| ==> Matches(s, s.entries[r])
    ensures forall j | k <= j < r :: !Matches(s, s.entries[j])
    decreases |s.entries| - k
  {
    if k == |s.entries| || Matches(s, s.entries[k]) then k else FirstMatchFrom(s, k + 1)
  }

  /** The last entry below `k` that passes the filter, or -1 when none does. */
  function LastMatchBefore(s: Setup, k: nat): (r: int)
    requires k <= |s.entries|
    ensures -1 <= r < k
    ensures r >= 0 ==> Matches(s, s.entries[r])
    ensures forall j | r < j < k :: !Matches(s, s.entries[j])
    decreases k
  {
    if k == 0 then -1
    else if Matches(s, s.entries[k - 1]) then k - 1
    else LastMatchBefore(s, k - 1)
  }

  /** `next()`: steps the wrapped cursor forward until it lands on an entry
      that passes the filter. When none is left, the wrapped cursor ends after
      the last entry and nothing is available. In a full scan a rejected
      candidate is forgotten. */
  function Next(c: Cursor): (r: Step)
    requires Consistent(c)
    ensures r.cursor.setup == c.setup && Valid(r.cursor)
    ensures r.found == r.cursor.available
    ensures r.found ==> Ahead(c.pos) <= r.cursor.pos.at
    ensures r.found ==> forall j | Ahead(c.pos) <= j < r.cursor.pos.at :: !Matches(c.setup, c.setup.entries[j])
    ensures !r.found ==> r.cursor.pos == Gap(|c.setup.entries|)
    ensures !r.found ==> forall j | Ahead(c.pos) <= j < |c.setup.entries| :: !Matches(c.setup, c.setup.entries[j])
    ensures c.setup.mode == UserIndex ==> r.cursor.candidate == c.candidate
    ensures c.setup.mode == FullScan && !r.found && Ahead(c.pos) < |c.setup.entries| ==> r.cursor.candidate == None
    ensures Ahead(c.pos) == |c.setup.entries| ==> r.cursor.candidate == c.candidate
  {
    var n := |c.setup.entries|;
    var start := Ahead(c.pos);
    var k := FirstMatchFrom(c.setup, start);
    var scan := c.setup.mode == FullScan;
    if k < n then
      Step(c.(pos := On(k), available := true,
              candidate := if scan then Some(c.setup.entries[k]) else c.candidate), true)
    else
      Step(c.(pos := Gap(n), available := false,
              candidate := if scan && start < n then None else c.candidate), false)
  }

  /** `previous()`, with the bound checked in both modes: steps the wrapped
      cursor back until it lands on an entry that passes the filter. When none
      is left, the wrapped cursor ends before the first entry. */
  function Previous(c: Cursor): (r: Step)
    requires Consistent(c)
    ensures r.cursor.setup == c.setup && Valid(r.cursor)
    ensures r.found == r.cursor.available
    ensures r.found ==> r.cursor.pos.at < c.pos.at
    ensures r.found ==> forall j | r.cursor.pos.at < j < c.pos.at :: !Matches(c.setup, c.setup.entries[j])
    ensures !r.found ==> r.cursor.pos == Gap(0)
    ensures !r.found ==> forall j | 0 <= j < c.pos.at :: !Matches(c.setup, c.setup.entries[j])
    ensures c.setup.mode == UserIndex ==> r.cursor.candidate == c.candidate
    ensures c.setup.mode == FullScan && !r.found && c.pos.at > 0 ==> r.cursor.candidate == None
    ensures c.pos.at == 0 ==> r.cursor.candidate == c.candidate
  {
    var k := LastMatchBefore(c.setup, c.pos.at);
    var scan := c.setup.mode == FullScan;
    if k >= 0 then
      Step(c.(pos := On(k), available := true,
              candidate := if scan then Some(c.setup.entries[k]) else c.candidate), true)
    else
      Step(c.(pos := Gap(0), available := false,
              candidate := if scan && c.pos.at > 0 then None else c.candidate), false)
  }

  /** `previous()` as written: over an attribute index it takes one step back
      without looking at the bound. */
  function PreviousAsWritten(c: Cursor): (r: Step)
    requires Consistent(c)
    ensures r.cursor.setup == c.setup && Consistent(r.cursor)
    ensures r.found == r.cursor.available
    ensures c.setup.mode == UserIndex ==> (r.found <==> c.pos.at > 0)
    ensures c.setup.mode == UserIndex && r.found ==> r.cursor.pos == On(c.pos.at - 1)
    ensures c.setup.mode == UserIndex && !r.found ==> r.cursor.pos == Gap(0)
    ensures c.setup.mode == UserIndex ==> r.cursor.candidate == c.candidate
    ensures c.setup.mode == FullScan ==> r == Previous(c)
  {
    if c.setup.mode == FullScan then Previous(c)
    else if c.pos.at > 0 then Step(c.(pos := On(c.pos.at - 1), available := true), true)
    else Step(c.(pos := Gap(0), available := false), false)
  }

  /** `get()`: the available entry; fails when nothing is available. */
  function Get(c: Cursor): (r: Result<IndexEntry, CursorError>)
    requires Consistent(c)
    ensures r.Success? <==> c.available
    ensures r.Failure? ==> r.error == InvalidPosition
    ensures r.Success? ==> r.value == c.setup.entries[c.pos.at]
    ensures r.Success? && Valid(c) ==> Matches(c.setup, r.value)
  {
    if !c.available then Failure(InvalidPosition)
    else if c.setup.mode == UserIndex then Success(c.setup.entries[c.pos.at])
    else Success(c.candidate.value)
  }

  // ---------------------------------------------------------------------------
  // Positioning
  // ---------------------------------------------------------------------------

  /** `beforeFirst()`: before every entry, nothing available; a full scan
      forgets its candidate. */
  function BeforeFirst(c: Cursor): (r: Cursor)
    ensures r.setup == c.setup && Valid(r) && !r.available
    ensures Ahead(r.pos) == 0
    ensures c.setup.mode == FullScan ==> r.candidate == None
  {
    if c.setup.mode == UserIndex then c.(pos := Gap(0), available := false)
    else c.(pos := Gap(0), available := false, candidate := None)
  }

  /** `afterLast()`: over an attribute index, just after the last entry at or
      below the bound (every entry before the position is at or below it, and
      the entry after it, if any, is above it); in a full scan, after every
      entry, forgetting the candidate. */
  function AfterLast(c: Cursor): (r: Cursor)
    ensures r.setup == c.setup && Valid(r) && !r.available && r.pos.Gap?
    ensures c.setup.mode == UserIndex ==> WithinBound(r)
    ensures c.setup.mode == UserIndex ==> forall j | 0 <= j < r.pos.at :: c.setup.entries[j].value <= c.setup.bound
    ensures c.setup.mode == UserIndex && r.pos.at < |c.setup.entries| ==> c.setup.entries[r.pos.at].value > c.setup.bound
    ensures c.setup.mode == UserIndex ==> r.candidate == c.candidate
    ensures c.setup.mode == FullScan ==> r.pos == Gap(|c.setup.entries|) && r.candidate == None
  {
    if c.setup.mode == UserIndex then c.(pos := Gap(Boundary(c.setup)), available := false)
    else c.(pos := Gap(|c.setup.entries|), available := false, candidate := None)
  }

  /** `first()`: succeeds exactly when some entry passes the filter, and then
      sits on the first one. */
  function First(c: Cursor): (r: Step)
    ensures r.cursor.setup == c.setup && Valid(r.cursor)
    ensures r.found == r.cursor.available
    ensures r.found <==> exists j | 0 <= j < |c.setup.entries| :: Matches(c.setup, c.setup.entries[j])
    ensures r.found ==> r.cursor.pos.On? && Matches(c.setup, c.setup.entries[r.cursor.pos.at])
    ensures r.found ==> forall j | 0 <= j < r.cursor.pos.at :: !Matches(c.setup, c.setup.entries[j])
    ensures !r.found ==> r.cursor.pos == Gap(|c.setup.entries|)
  {
    Next(BeforeFirst(c))
  }

  /** `last()`: over an attribute index, succeeds exactly when some entry is at
      or below the bound and then sits on the last such entry; in a full scan,
      succeeds exactly when the evaluator accepts some entry and then sits on
      the last one. */
  function Last(c: Cursor): (r: Step)
    ensures r.cursor.setup == c.setup && Valid(r.cursor)
    ensures r.found == r.cursor.available
    ensures !r.found ==> r.cursor.pos == Gap(0)
    ensures c.setup.mode == UserIndex ==> (r.found <==> Boundary(c.setup) > 0)
    ensures c.setup.mode == UserIndex && r.found ==> r.cursor.pos == On(Boundary(c.setup) - 1)
    ensures c.setup.mode == UserIndex ==> WithinBound(r.cursor)
    ensures c.setup.mode == FullScan ==>
      (r.found <==> exists j | 0 <= j < |c.setup.entries| :: Matches(c.setup, c.setup.entries[j]))
    ensures c.setup.mode == FullScan && r.found ==>
      r.cursor.pos.On? && Matches(c.setup, c.setup.entries[r.cursor.pos.at])
    ensures c.setup.mode == FullScan && r.found ==>
      forall j | r.cursor.pos.at < j < |c.setup.entries| :: !Matches(c.setup, c.setup.entries[j])
  {
    var s := c.setup;
    var b := Boundary(s);
    assert s.mode == UserIndex && b > 0 ==> Matches(s, s.entries[b - 1]);
    Previous(AfterLast(c))
  }

  /** Where `before` puts a cursor over an attribute index: past the bound it
      goes after the last entry at or below the bound; at the bound it goes
      `last()` then `previous()`, so that only the last entry at or below the
      bound is left ahead; below the bound the wrapped cursor goes before the
      first entry not preceding the key. Nothing is available afterwards. */
  function PositionBefore(c: Cursor, key: IndexEntry): (r: Cursor)
    requires c.setup.mode == UserIndex
    ensures r.setup == c.setup && Valid(r) && !r.available
    ensures WithinBound(r)
    ensures key.value > c.setup.bound ==> r == AfterLast(c)
    ensures key.value == c.setup.bound ==>
      Ahead(r.pos) == if Boundary(c.setup) > 0 then Boundary(c.setup) - 1 else 0
    ensures key.value < c.setup.bound ==> r.pos == Gap(LowerBound(c.setup.entries, key))
  {
    var s := c.setup;
    var b := Boundary(s);
    if key.value > s.bound then AfterLast(c)
    else if key.value == s.bound then
      var last := Last(c);
      assert b > 1 ==> Matches(s, s.entries[b - 2]);
      Previous(last.cursor).cursor.(available := false)
    else
      BoundsBelowValue(s.entries, key, s.bound);
      c.(pos := Gap(LowerBound(s.entries, key)), available := false)
  }

  /** Where `after` puts a cursor over an attribute index: at or past the bound
      it goes after the last entry at or below the bound; below the bound the
      wrapped cursor goes after the last entry not following the key. Nothing
      is available afterwards. */
  function PositionAfter(c: Cursor, key: IndexEntry): (r: Cursor)
    requires c.setup.mode == UserIndex
    ensures r.setup == c.setup && Valid(r) && !r.available
    ensures WithinBound(r)
    ensures key.value >= c.setup.bound ==> r == AfterLast(c)
    ensures key.value < c.setup.bound ==> r.pos == Gap(UpperBound(c.setup.entries, key))
  {
    if key.value >= c.setup.bound then AfterLast(c)
    else
      BoundsBelowValue(c.setup.entries, key, c.setup.bound);
      c.(pos := Gap(UpperBound(c.setup.entries, key)), available := false)
  }

  /** `before(element)`: positions an attribute-index cursor; a full scan
      leaves it to the generic cursor, which does not support it. */
  function Before(c: Cursor, element: IndexEntry): (r: Result<Cursor, CursorError>)
    ensures r.Failure? <==> c.setup.mode == FullScan
    ensures r.Failure? ==> r.error == Unsupported
    ensures r.Success? ==> r.value == PositionBefore(c, element)
  {
    if c.setup.mode == FullScan then Failure(Unsupported) else Success(PositionBefore(c, element))
  }

  /** `beforeValue(id, value)`: as `before` on the entry (value, id); refused
      in a full scan. */
  function BeforeValue(c: Cursor, id: int, value: int): (r: Result<Cursor, CursorError>)
    ensures r.Failure? <==> c.setup.mode == FullScan
    ensures r.Failure? ==> r.error == Unsupported
    ensures r.Success? ==> r.value == PositionBefore(c, IndexEntry(value, id))
  {
    if c.setup.mode == FullScan then Failure(Unsupported)
    else Success(PositionBefore(c, IndexEntry(value, id)))
  }

  /** `after(element)`: positions an attribute-index cursor; a full scan
      leaves it to the generic cursor, which does not support it. */
  function After(c: Cursor, element: IndexEntry): (r: Result<Cursor, CursorError>)
    ensures r.Failure? <==> c.setup.mode == FullScan
    ensures r.Failure? ==> r.error == Unsupported
    ensures r.Success? ==> r.value == PositionAfter(c, element)
  {
    if c.setup.mode == FullScan then Failure(Unsupported) else Success(PositionAfter(c, element))
  }

  /** `afterValue(id, value)`: as `after` on the entry (value, id); refused in
      a full scan. */
  function AfterValue(c: Cursor, id: int, value: int): (r: Result<Cursor, CursorError>)
    ensures r.Failure? <==> c.setup.mode == FullScan
    ensures r.Failure? ==> r.error == Unsupported
    ensures r.Success? ==> r.value == PositionAfter(c, IndexEntry(value, id))
  {
    if c.setup.mode == FullScan then Failure(Unsupported)
    else Success(PositionAfter(c, IndexEntry(value, id)))
  }

  // ---------------------------------------------------------------------------
  // What the cursor yields
  // ---------------------------------------------------------------------------

  /** The entries of `es` that pass the filter, in order. */
  function Matching(s: Setup, es: seq<IndexEntry>): seq<IndexEntry>
  {
    if es == [] then []
    else (if Matches(s, es[0]) then [es[0]] else []) + Matching(s, es[1..])
  }

  function Reverse(es: seq<IndexEntry>): (r: seq<IndexEntry>)
    ensures |r| == |es|
  {
    if es == [] then [] else [es[|es| - 1]] + Reverse(es[..|es| - 1])
  }

  /** The entries `get()` returns after each successful `next()`, until
      `next()` returns false. */
  function ForwardPass(c: Cursor): seq<IndexEntry>
    requires Consistent(c)
    decreases |c.setup.entries| - Ahead(c.pos)
  {
    var step := Next(c);
    if !step.found then [] else [Get(step.cursor).value] + ForwardPass(step.cursor)
  }

  /** The entries `get()` returns after each successful `previous()`, until
      `previous()` returns false. */
  function BackwardPass(c: Cursor): seq<IndexEntry>
    requires Consistent(c)
    decreases c.pos.at
  {
    var step := Previous(c);
    if !step.found then [] else [Get(step.cursor).value] + BackwardPass(step.cursor)
  }

  lemma {:induction false} MatchingAppend(s: Setup, a: seq<IndexEntry>, b: seq<IndexEntry>)
    ensures Matching(s, a + b) == Matching(s, a) + Matching(s, b)
  {
    if a == [] {
      assert a + b == b;
    } else {
      assert (a + b)[1..] == a[1..] + b;
      MatchingAppend(s, a[1..], b);
    }
  }

  lemma {:induction false} MatchingNone(s: Setup, es: seq<IndexEntry>)
    requires forall j | 0 <= j < |es| :: !Matches(s, es[j])
    ensures Matching(s, es) == []
  {
    if es != [] {
      MatchingNone(s, es[1..]);
    }
  }

  lemma {:induction false} MatchingAll(s: Setup, es: seq<IndexEntry>)
    requires forall j | 0 <= j < |es| :: Matches(s, es[j])
    ensures Matching(s, es) == es
  {
    if es != [] {
      MatchingAll(s, es[1..]);
    }
  }

  /** Every entry from `k` up to `end` passes the filter: all of them are kept. */
  lemma MatchingAllBetween(s: Setup, k: nat, end: nat)
    requires k <= end <= |s.entries|
    requires forall j | k <= j < end :: Matches(s, s.entries[j])
    ensures Matching(s, s.entries[k..end]) == s.entries[k..end]
  {
    var between := s.entries[k..end];
    forall j | 0 <= j < |between|
      ensures Matches(s, between[j])
    {
      assert between[j] == s.entries[k + j];
    }
    MatchingAll(s, between);
  }

  /** Over an ascending attribute index, the entries that pass the filter from
      `k` on are exactly those from `k` up to the bound. */
  lemma SortedMatching(s: Setup, k: nat)
    requires s.mode == UserIndex && Sorted(s.entries)
    requires k <= Boundary(s)
    ensures Matching(s, s.entries[k..]) == s.entries[k..Boundary(s)]
  {
    var b := Boundary(s);
    ValueUpperBoundSplits(s.entries, s.bound);
    MatchingAllBetween(s, k, b);
    MatchingNoneFrom(s, b);
    assert s.entries[k..] == s.entries[k..b] + s.entries[b..];
    MatchingAppend(s, s.entries[k..b], s.entries[b..]);
  }

  /** No entry from `start` on passes the filter: nothing is left to match. */
  lemma MatchingNoneFrom(s: Setup, start: nat)
    requires start <= |s.entries|
    requires forall j | start <= j < |s.entries| :: !Matches(s, s.entries[j])
    ensures Matching(s, s.entries[start..]) == []
  {
    var rest := s.entries[start..];
    forall j | 0 <= j < |rest|
      ensures !Matches(s, rest[j])
    {
      assert rest[j] == s.entries[start + j];
    }
    MatchingNone(s, rest);
  }

  /** Entry `k` is the first from `start` on that passes the filter, so it is
      the first the filter keeps of those entries. */
  lemma MatchingSkip(s: Setup, start: nat, k: nat)
    requires start <= k < |s.entries|
    requires forall j | start <= j < k :: !Matches(s, s.entries[j])
    requires Matches(s, s.entries[k])
    ensures Matching(s, s.entries[start..]) == [s.entries[k]] + Matching(s, s.entries[k + 1..])
  {
    var skipped := s.entries[start..k];
    var tail := [s.entries[k]] + s.entries[k + 1..];
    forall j | 0 <= j < |skipped|
      ensures !Matches(s, skipped[j])
    {
      assert skipped[j] == s.entries[start + j];
    }
    MatchingNone(s, skipped);
    assert s.entries[start..] == skipped + tail;
    MatchingAppend(s, skipped, tail);
    assert tail[1..] == s.entries[k + 1..];
  }

  /** Walking forward from any position yields exactly the entries ahead of it
      that pass the filter, in index order. */
  lemma {:induction false} ForwardPassYieldsMatches(c: Cursor)
    requires Consistent(c)
    ensures ForwardPass(c) == Matching(c.setup, c.setup.entries[Ahead(c.pos)..])
    decreases |c.setup.entries| - Ahead(c.pos)
  {
    var step := Next(c);
    if !step.found {
      MatchingNoneFrom(c.setup, Ahead(c.pos));
    } else {
      var k := step.cursor.pos.at;
      ForwardPassYieldsMatches(step.cursor);
      MatchingSkip(c.setup, Ahead(c.pos), k);
      assert ForwardPass(c) == [c.setup.entries[k]] + ForwardPass(step.cursor);
    }
  }

  /** No entry below `end` passes the filter: nothing behind is left to match. */
  lemma MatchingNoneBefore(s: Setup, end: nat)
    requires end <= |s.entries|
    requires forall j | 0 <= j < end :: !Matches(s, s.entries[j])
    ensures Matching(s, s.entries[..end]) == []
  {
    var front := s.entries[..end];
    forall j | 0 <= j < |front|
      ensures !Matches(s, front[j])
    {
      assert front[j] == s.entries[j];
    }
    MatchingNone(s, front);
  }

  /** Entry `k` is the last below `end` that passes the filter, so it is the
      last the filter keeps of those entries. */
  lemma MatchingBackSkip(s: Setup, k: nat, end: nat)
    requires k < end <= |s.entries|
    requires forall j | k < j < end :: !Matches(s, s.entries[j])
    requires Matches(s, s.entries[k])
    ensures Matching(s, s.entries[..end]) == Matching(s, s.entries[..k]) + [s.entries[k]]
  {
    var front := s.entries[..k] + [s.entries[k]];
    var skipped := s.entries[k + 1..end];
    forall j | 0 <= j < |skipped|
      ensures !Matches(s, skipped[j])
    {
      assert skipped[j] == s.entries[k + 1 + j];
    }
    MatchingNone(s, skipped);
    assert s.entries[..end] == front + skipped;
    MatchingAppend(s, front, skipped);
    MatchingAppend(s, s.entries[..k], [s.entries[k]]);
    assert Matching(s, [s.entries[k]]) == [s.entries[k]];
  }

  /** Walking backward from any position yields exactly the entries behind it
      that pass the filter, last first. */
  lemma {:induction false} BackwardPassYieldsMatches(c: Cursor)
    requires Consistent(c)
    ensures BackwardPass(c) == Reverse(Matching(c.setup, c.setup.entries[..c.pos.at]))
    decreases c.pos.at
  {
    var s := c.setup;
    var step := Previous(c);
    if !step.found {
      MatchingNoneBefore(s, c.pos.at);
    } else {
      var k := step.cursor.pos.at;
      BackwardPassYieldsMatches(step.cursor);
      MatchingBackSkip(s, k, c.pos.at);
      var m := Matching(s, s.entries[..k]);
      assert (m + [s.entries[k]])[..|m|] == m;
    }
  }

  /** `beforeFirst()` then repeated `next()` yields every entry that passes the
      filter, in index order, and nothing else. */
  lemma ForwardPassFromStart(c: Cursor)
    ensures ForwardPass(BeforeFirst(c)) == Matching(c.setup, c.setup.entries)
  {
    ForwardPassYieldsMatches(BeforeFirst(c));
    assert c.setup.entries[0..] == c.setup.entries;
  }

  /** Over an ascending attribute index, a forward pass yields exactly the
      entries at or below the bound: never one past it. */
  lemma IndexedForwardPass(c: Cursor)
    requires c.setup.mode == UserIndex && Sorted(c.setup.entries)
    ensures ForwardPass(BeforeFirst(c)) == c.setup.entries[..Boundary(c.setup)]
    ensures forall e | e in ForwardPass(BeforeFirst(c)) :: e.value <= c.setup.bound
  {
    ForwardPassFromStart(c);
    SortedMatching(c.setup, 0);
  }

  /** `afterLast()` then repeated `previous()` yields the same entries as a
      forward pass, in reverse: over an attribute index the entries up to the
      bound, in a full scan the entries the evaluator accepts. */
  lemma BackwardPassFromEnd(c: Cursor)
    requires c.setup.mode == FullScan || Sorted(c.setup.entries)
    ensures BackwardPass(AfterLast(c)) == Reverse(Matching(c.setup, c.setup.entries))
    ensures BackwardPass(AfterLast(c)) == Reverse(ForwardPass(BeforeFirst(c)))
  {
    var s := c.setup;
    var a := AfterLast(c);
    BackwardPassYieldsMatches(a);
    ForwardPassFromStart(c);
    if s.mode == UserIndex {
      SortedMatching(s, 0);
      assert s.entries[0..] == s.entries;
      MatchingAll(s, s.entries[..Boundary(s)]);
    } else {
      assert s.entries[..|s.entries|] == s.entries;
    }
  }

  /** In an ascending index, no entry from `LowerBound(es, key)` on precedes `key`. */
  lemma NotBeforeLowerBound(es: seq<IndexEntry>, key: IndexEntry, j: nat)
    requires Sorted(es)
    requires LowerBound(es, key) <= j < |es|
    ensures !Precedes(es[j], key)
  {
    var lo := LowerBound(es, key);
    assert !Precedes(es[lo], key);
    if lo < j {
      assert !Precedes(es[j], es[lo]);
    }
  }

  /** Over an ascending attribute index, `before(key)` with a key below the
      bound is followed by exactly the entries from the key up to the bound. */
  lemma BeforeThenForward(c: Cursor, key: IndexEntry)
    requires c.setup.mode == UserIndex && Sorted(c.setup.entries)
    requires key.value < c.setup.bound
    ensures Before(c, key).Success?
    ensures ForwardPass(Before(c, key).value)
         == c.setup.entries[LowerBound(c.setup.entries, key)..Boundary(c.setup)]
    ensures forall e | e in ForwardPass(Before(c, key).value) :: !Precedes(e, key) && e.value <= c.setup.bound
  {
    var s := c.setup;
    var lo := LowerBound(s.entries, key);
    var b := Boundary(s);
    ForwardPassYieldsMatches(Before(c, key).value);
    SortedMatching(s, lo);
    forall e | e in s.entries[lo..b]
      ensures !Precedes(e, key) && e.value <= s.bound
    {
      var j :| lo <= j < b && s.entries[j] == e;
      NotBeforeLowerBound(s.entries, key, j);
    }
  }

  /** Over an ascending attribute index, `after(key)` with a key below the
      bound is followed by exactly the entries after the key up to the bound. */
  lemma AfterThenForward(c: Cursor, key: IndexEntry)
    requires c.setup.mode == UserIndex && Sorted(c.setup.entries)
    requires key.value < c.setup.bound
    ensures After(c, key).Success?
    ensures ForwardPass(After(c, key).value)
         == c.setup.entries[UpperBound(c.setup.entries, key)..Boundary(c.setup)]
  {
    ForwardPassYieldsMatches(After(c, key).value);
    SortedMatching(c.setup, UpperBound(c.setup.entries, key));
  }

  /** Over an ascending attribute index, positioning at or past the bound
      leaves nothing ahead: `after` with such a key, or `before` with a key
      past the bound, is followed by no entry at all. */
  lemma PastBoundYieldsNothing(c: Cursor, key: IndexEntry)
    requires c.setup.mode == UserIndex && Sorted(c.setup.entries)
    requires key.value >= c.setup.bound
    ensures ForwardPass(After(c, key).value) == []
    ensures key.value > c.setup.bound ==> ForwardPass(Before(c, key).value) == []
  {
    var b := Boundary(c.setup);
    ForwardPassYieldsMatches(AfterLast(c));
    SortedMatching(c.setup, b);
  }

  /** Over an ascending attribute index, `before(key)` with a key equal to the
      bound is followed only by the last entry at or below the bound, whatever
      its value and however many entries share the bound. */
  lemma BeforeAtBound(c: Cursor, key: IndexEntry)
    requires c.setup.mode == UserIndex && Sorted(c.setup.entries)
    requires key.value == c.setup.bound
    ensures var b := Boundary(c.setup);
      ForwardPass(Before(c, key).value) == if b > 0 then [c.setup.entries[b - 1]] else []
  {
    var s := c.setup;
    var b := Boundary(s);
    var r := Before(c, key).value;
    ForwardPassYieldsMatches(r);
    SortedMatching(s, Ahead(r.pos));
    if b > 0 {
      assert s.entries[b - 1..b] == [s.entries[b - 1]];
    }
  }

  // ---------------------------------------------------------------------------
  // `previous()` over an attribute index
  // ---------------------------------------------------------------------------

  /** Inside the bound, the unchecked step of `previous()` as written and the
      checked one agree: the source's shortcut is sound whenever no `next()`
      has walked past the bound. */
  lemma PreviousAsWrittenWithinBound(c: Cursor)
    requires Consistent(c) && c.setup.mode == UserIndex
    requires c.pos.at <= Boundary(c.setup)
    ensures PreviousAsWritten(c) == Previous(c)
  {
    var s := c.setup;
    if c.pos.at > 0 {
      assert Matches(s, s.entries[c.pos.at - 1]);
    }
  }

  /** `last()` as written, `afterLast()` then the unchecked `previous()`, is
      the model's `Last`: `afterLast()` never leaves the cursor past the
      bound. */
  lemma LastAsWritten(c: Cursor)
    ensures Last(c) == PreviousAsWritten(AfterLast(c))
  {
    if c.setup.mode == UserIndex {
      PreviousAsWrittenWithinBound(AfterLast(c));
    }
  }

  /** `before` with a key equal to the bound, as written over an attribute
      index: `last()` then the unchecked `previous()`, then nothing available.
      Both unchecked steps start within the bound, so this is the model's
      `PositionBefore`. */
  lemma BeforeAtBoundAsWritten(c: Cursor, key: IndexEntry)
    requires c.setup.mode == UserIndex
    requires key.value == c.setup.bound
    ensures var last := PreviousAsWritten(AfterLast(c));
      PositionBefore(c, key) == PreviousAsWritten(last.cursor).cursor.(available := false)
  {
    LastAsWritten(c);
    PreviousAsWrittenWithinBound(Last(c).cursor);
  }

  /** After `next()` has walked to the end of an attribute index whose last
      entry is past the bound, `previous()` as written makes that entry
      available: over the index (1, 9) with bound 5, `first()` yields 1, the
      following `next()` returns false, and `previous()` then returns true with
      `get()` yielding the entry with value 9. */
  lemma PreviousAsWrittenPassesBound()
    ensures var c := Create(true, [IndexEntry(1, 1), IndexEntry(9, 2)], [], 5, {});
      var first := First(c);
      var next := Next(first.cursor);
      var previous := PreviousAsWritten(next.cursor);
      && first.found && Get(first.cursor) == Success(IndexEntry(1, 1))
      && !next.found
      && previous.found && Get(previous.cursor) == Success(IndexEntry(9, 2))
      && !Valid(previous.cursor)
  {
    var c := Create(true, [IndexEntry(1, 1), IndexEntry(9, 2)], [], 5, {});
    assert c.setup.entries[0].value <= 5;
    var first := First(c);
    assert first.cursor.pos == On(0);
    var next := Next(first.cursor);
    assert !Matches(c.setup, c.setup.entries[1]);
    assert next.cursor.pos == Gap(2);
  }

  /** With the bound checked, `previous()` after the same walk lands back on
      the last entry at or below the bound. */
  lemma PreviousAfterExhaustion()
    ensures var c := Create(true, [IndexEntry(1, 1), IndexEntry(9, 2)], [], 5, {});
      var next := Next(First(c).cursor);
      var previous := Previous(next.cursor);
      && !next.found
      && previous.found && Get(previous.cursor) == Success(IndexEntry(1, 1))
  {
    var c := Create(true, [IndexEntry(1, 1), IndexEntry(9, 2)], [], 5, {});
    assert c.setup.entries[0].value <= 5;
    var first := First(c);
    assert first.cursor.pos == On(0);
    var next := Next(first.cursor);
    assert !Matches(c.setup, c.setup.entries[1]);
    assert next.cursor.pos == Gap(2);
    assert Matches(c.setup, c.setup.entries[0]);
  }
}
