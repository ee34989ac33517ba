/**
 Counting the tables under one modal with dictionaries that are shared: the index may hold the very dictionary
 that a record of changes holds, and then changes it there too. What taking changes back leads to.
 */
module SharedCounts {
  import opened Syntax

  /** How often each table occurs; a modal without tables is not there. */
  type Counts = map<string, nat>

  predicate Tidy(c: Counts) {
    forall t | t in c :: c[t] > 0
  }

  function CountIn(c: Counts, t: string): nat {
    if t in c then c[t] else 0
  }

  function AddTables(mine: Counts, theirs: Counts): (r: Counts)
    ensures Tidy(mine) && Tidy(theirs) ==> Tidy(r)
    ensures r == map[] ==> theirs == map[]
  {
    map t | t in mine.Keys + theirs.Keys :: CountIn(mine, t) + CountIn(theirs, t)
  }

  /** Subtracts the counts that both have, and drops what falls to zero. */
  function SubtractTables(mine: Counts, theirs: Counts): (r: Counts)
    ensures Tidy(r) && (mine == map[] ==> r == map[])
  {
    map t | t in mine && CountIn(mine, t) > CountIn(theirs, t) :: CountIn(mine, t) - CountIn(theirs, t)
  }

  function Max(a: int, b: int): int {
    if a < b then b else a
  }

  lemma SameCounts(c: Counts, c': Counts)
    requires Tidy(c) && Tidy(c')
    ensures c == c' <==> forall t :: CountIn(c, t) == CountIn(c', t)
  {
    if forall t :: CountIn(c, t) == CountIn(c', t) {
      forall t
        ensures t in c <==> t in c'
        ensures t in c ==> c[t] == c'[t]
      {
        assert CountIn(c, t) == CountIn(c', t);
      }
    }
  }

  lemma EmptyCounts(c: Counts)
    requires Tidy(c)
    ensures c == map[] <==> forall t :: CountIn(c, t) == 0
  {
    SameCounts(c, map[]);
  }

  lemma AddedAndSubtracted(mine: Counts, theirs: Counts, t: string)
    ensures CountIn(AddTables(mine, theirs), t) == CountIn(mine, t) + CountIn(theirs, t)
    ensures CountIn(SubtractTables(mine, theirs), t) == Max(0, CountIn(mine, t) - CountIn(theirs, t))
    ensures Tidy(SubtractTables(mine, theirs)) && (Tidy(mine) && Tidy(theirs) ==> Tidy(AddTables(mine, theirs)))
    ensures SubtractTables(mine, mine) == map[] && (Tidy(mine) ==> SubtractTables(mine, map[]) == mine)
  {}

  // ---------------------------------------------------------------------------
  // The index and the records

  /** What the index counts, the record that holds the same dictionary, and what all the records hold now. */
  datatype Shelf = Shelf(counts: Counts, owner: Option<nat>, records: seq<Counts>)
  {
    ghost predicate Valid() {
      && Tidy(counts) && (forall i | 0 <= i < |records| :: Tidy(records[i]))
      && (owner.Some? ==> owner.value < |records| && records[owner.value] == counts && counts != map[])
    }

    /** The index's dictionary is changed in place, or dropped when it gets empty. */
    function Change(c: Counts): Shelf
      requires owner.Some? ==> owner.value < |records|
    {
      Shelf(c, if c == map[] then None else owner, if owner.Some? then records[owner.value := c] else records)
    }

    /** Adds a record; where nothing is counted its dictionary becomes the index's own. */
    function Plus(i: nat): Shelf
      requires i < |records| && (owner.Some? ==> owner.value < |records|)
    {
      if records[i] == map[] then this
      else if counts == map[] then Shelf(records[i], Some(i), records)
      else Change(AddTables(counts, records[i]))
    }

    function Minus(i: nat): Shelf
      requires i < |records| && (owner.Some? ==> owner.value < |records|)
    {
      Change(SubtractTables(counts, records[i]))
    }

    function Apply(i: nat, insert: bool): Shelf
      requires i < |records| && (owner.Some? ==> owner.value < |records|)
    {
      if insert then Plus(i) else Minus(i)
    }

    /** A new record. */
    function Append(c: Counts): Shelf {
      this.(records := records + [c])
    }
  }

  /** What one event of a batch contributes under the modal. */
  datatype Part = Part(counts: Counts, insert: bool)

  predicate AllTidy(es: seq<Part>) {
    forall i | 0 <= i < |es| :: Tidy(es[i].counts)
  }

  lemma ApplyIsValid(s: Shelf, i: nat, insert: bool)
    requires s.Valid() && i < |s.records|
    ensures s.Apply(i, insert).Valid() && |s.Apply(i, insert).records| == |s.records|
  {
    hide Tidy, AddTables, SubtractTables;
  }

  /** Making the batch: each event with a new record. */
  ghost function Made(c0: Counts, es: seq<Part>): (s: Shelf)
    requires Tidy(c0) && AllTidy(es)
    ensures s.Valid() && |s.records| == |es|
    decreases |es|
  {
    if es == [] then Shelf(c0, None, [])
    else
      var n := |es| - 1;
      var s := Made(c0, es[..n]).Append(es[n].counts);
      ApplyIsValid(s, n, es[n].insert);
      s.Apply(n, es[n].insert)
  }

  /** Taking the first `k` events back, first one first. */
  ghost function Undone(s: Shelf, es: seq<Part>, k: nat): (r: Shelf)
    requires s.Valid() && |s.records| == |es| && k <= |es|
    ensures r.Valid() && |r.records| == |es|
    decreases k
  {
    if k == 0 then s
    else
      var r := Undone(s, es, k - 1);
      ApplyIsValid(r, k - 1, !es[k - 1].insert);
      r.Apply(k - 1, !es[k - 1].insert)
  }

  /** Only what the events are, and not what they count, matters for taking them back. */
  lemma {:induction false} UndoneByKinds(s: Shelf, es: seq<Part>, es': seq<Part>, k: nat)
    requires s.Valid() && |s.records| == |es| == |es'| && k <= |es|
    requires forall i | 0 <= i < k :: es[i].insert == es'[i].insert
    ensures Undone(s, es, k) == Undone(s, es', k)
    decreases k
  {
    hide Shelf.Valid, Shelf.Apply;
    if k > 0 {
      UndoneByKinds(s, es, es', k - 1);
    }
  }

  // ---------------------------------------------------------------------------
  // Making a batch

  function Signed(e: Part, t: string): int {
    if e.insert then CountIn(e.counts, t) else 0 - CountIn(e.counts, t)
  }

  function Net(es: seq<Part>, t: string): int {
    if es == [] then 0 else Net(es[..|es| - 1], t) + Signed(es[|es| - 1], t)
  }

  /** Only what is counted is deleted. */
  ghost predicate AllFit(c0: Counts, es: seq<Part>) {
    forall k, t | 0 <= k <= |es| :: CountIn(c0, t) + Net(es[..k], t) >= 0
  }

  /** An insert that meets the modal when nothing is counted under it. */
  ghost predicate IsOpening(c0: Counts, es: seq<Part>, k: nat) {
    && k < |es| && es[k].insert && es[k].counts != map[]
    && forall t :: CountIn(c0, t) + Net(es[..k], t) == 0
  }

  ghost predicate IsLastOpening(c0: Counts, es: seq<Part>, p: nat) {
    p < |es| && IsOpening(c0, es, p) && forall k | p < k < |es| :: !IsOpening(c0, es, k)
  }

  ghost predicate NoOpening(c0: Counts, es: seq<Part>) {
    forall k | 0 <= k < |es| :: !IsOpening(c0, es, k)
  }

  lemma OpeningInPrefix(c0: Counts, es: seq<Part>, n: nat, k: nat)
    requires k < n <= |es|
    ensures IsOpening(c0, es[..n], k) <==> IsOpening(c0, es, k)
  {
    assert es[..n][..k] == es[..k];
  }

  /** After the batch: records are as they were, but the dictionaries of openings are emptied or the index's own. */
  ghost predicate IsMade(c0: Counts, es: seq<Part>, s: Shelf) {
    && s.Valid() && |s.records| == |es|
    && (forall t :: CountIn(s.counts, t) == CountIn(c0, t) + Net(es, t))
    && IsMarked(c0, es, s)
  }

  ghost predicate IsMarked(c0: Counts, es: seq<Part>, s: Shelf)
    requires |s.records| == |es|
  {
    && (forall j | 0 <= j < |es| :: s.records[j] ==
          if !IsOpening(c0, es, j) then es[j].counts else if s.owner == Some(j) then s.counts else map[])
    && (s.owner.Some? ==> IsLastOpening(c0, es, s.owner.value))
    && (s.owner.None? ==> s.counts == map[] || NoOpening(c0, es))
  }

  lemma {:induction false} MadeIsMade(c0: Counts, es: seq<Part>)
    requires Tidy(c0) && AllTidy(es) && AllFit(c0, es)
    ensures IsMade(c0, es, Made(c0, es))
    decreases |es|
  {
    if es != [] {
      var n := |es| - 1;
      assert AllFit(c0, es[..n]) by {
        assert forall k | 0 <= k <= n :: es[..n][..k] == es[..k];
      }
      MadeIsMade(c0, es[..n]);
      MadeStep(c0, es, Made(c0, es[..n]));
    }
  }

  lemma MadeStep(c0: Counts, es: seq<Part>, s: Shelf)
    requires Tidy(c0) && AllTidy(es) && AllFit(c0, es) && es != [] && IsMade(c0, es[..|es| - 1], s)
    ensures var n := |es| - 1;
            IsMade(c0, es, s.Append(es[n].counts).Apply(n, es[n].insert))
  {
    hide IsOpening, AddTables, SubtractTables, Tidy, Net, IsMarked;
    var n := |es| - 1;
    var e := es[n];
    var s' := s.Append(e.counts);
    var r := s'.Apply(n, e.insert);
    assert s'.Valid();
    ApplyIsValid(s', n, e.insert);
    forall t
      ensures CountIn(r.counts, t) == CountIn(c0, t) + Net(es, t)
    {
      assert CountIn(c0, t) + Net(es[..|es|], t) >= 0 && es[..|es|] == es;
      LastNet(es, t);
      AddedAndSubtracted(s.counts, e.counts, t);
      NothingAdded(s.counts, e.counts, t);
    }
    LastOpening(c0, es, s);
    MarkedStep(c0, es, s);
  }

  lemma MarkedStep(c0: Counts, es: seq<Part>, s: Shelf)
    requires es != [] && |s.records| == |es| - 1 && s.Valid() && IsMarked(c0, es[..|es| - 1], s)
    requires var n := |es| - 1;
             IsOpening(c0, es, n) <==> es[n].insert && es[n].counts != map[] && s.counts == map[]
    ensures var n := |es| - 1;
            var r := s.Append(es[n].counts).Apply(n, es[n].insert);
            |r.records| == |es| && IsMarked(c0, es, r)
  {
    hide IsOpening, AddTables, SubtractTables, Tidy;
    var n := |es| - 1;
    forall j | 0 <= j < n
      ensures IsOpening(c0, es[..n], j) <==> IsOpening(c0, es, j)
    {
      OpeningInPrefix(c0, es, n, j);
    }
  }

  lemma LastNet(es: seq<Part>, t: string)
    requires es != []
    ensures Net(es, t) == Net(es[..|es| - 1], t) + Signed(es[|es| - 1], t)
  {}

  lemma NothingAdded(c: Counts, d: Counts, t: string)
    ensures d == map[] ==> CountIn(d, t) == 0
    ensures c == map[] ==> CountIn(c, t) == 0
  {}

  lemma LastOpening(c0: Counts, es: seq<Part>, s: Shelf)
    requires es != [] && s.Valid() && forall t :: CountIn(s.counts, t) == CountIn(c0, t) + Net(es[..|es| - 1], t)
    ensures var n := |es| - 1;
            IsOpening(c0, es, n) <==> es[n].insert && es[n].counts != map[] && s.counts == map[]
  {
    EmptyCounts(s.counts);
  }

  // ---------------------------------------------------------------------------
  // Counts that stop at zero

  function Sum(zs: seq<int>): int {
    if zs == [] then 0 else Sum(zs[..|zs| - 1]) + zs[|zs| - 1]
  }

  /** Where steps lead that are cut off at zero. */
  function Walk(v: nat, zs: seq<int>): nat {
    if zs == [] then v else Max(0, Walk(v, zs[..|zs| - 1]) + zs[|zs| - 1])
  }

  lemma {:induction false} WalkSplit(v: nat, zs: seq<int>, k: nat)
    requires k <= |zs|
    ensures Walk(v, zs) == Walk(Walk(v, zs[..k]), zs[k..])
    ensures Sum(zs) == Sum(zs[..k]) + Sum(zs[k..])
    decreases |zs|
  {
    if k == |zs| {
      assert zs[..k] == zs && zs[k..] == [];
    } else {
      var n := |zs| - 1;
      WalkSplit(v, zs[..n], k);
      assert zs[..n][..k] == zs[..k] && zs[k..][..n - k] == zs[..n][k..] && zs[k..][n - k] == zs[n];
    }
  }

  lemma {:induction false} WalkAbove(v: nat, zs: seq<int>)
    ensures Walk(v, zs) >= v + Sum(zs)
    decreases |zs|
  {
    if zs != [] {
      WalkAbove(v, zs[..|zs| - 1]);
    }
  }

  /** The walk ends where its steps lead altogether, or those after it was last cut off. */
  lemma {:induction false} WalkEnds(v: nat, zs: seq<int>)
    ensures Walk(v, zs) == v + Sum(zs) || exists j :: 0 <= j <= |zs| && Walk(v, zs) == Sum(zs[j..])
    decreases |zs|
  {
    if zs != [] {
      var n := |zs| - 1;
      WalkEnds(v, zs[..n]);
      if Walk(v, zs) == 0 {
        assert zs[|zs|..] == [];
        assert Walk(v, zs) == Sum(zs[|zs|..]);
      } else if j :| 0 <= j <= n && Walk(v, zs[..n]) == Sum(zs[..n][j..]) {
        assert zs[j..][..n - j] == zs[..n][j..] && zs[j..][n - j] == zs[n];
        assert Walk(v, zs) == Sum(zs[j..]);
      }
    }
  }

  lemma WalkAboveEnds(v: nat, zs: seq<int>, j: nat)
    requires j <= |zs|
    ensures Walk(v, zs) >= Sum(zs[j..])
  {
    WalkSplit(v, zs, j);
    WalkAbove(Walk(v, zs[..j]), zs[j..]);
  }

  /** A walk from v that ought to end at c does so exactly if no end of it leads higher. */
  lemma WalkIsExact(v: nat, zs: seq<int>, c: nat)
    requires v + Sum(zs) == c
    ensures Walk(v, zs) == c <==> forall j | 0 <= j <= |zs| :: Sum(zs[j..]) <= c
  {
    WalkAbove(v, zs);
    WalkEnds(v, zs);
    forall j | 0 <= j <= |zs|
      ensures Walk(v, zs) >= Sum(zs[j..])
    {
      WalkAboveEnds(v, zs, j);
    }
  }

  /** A walk from zero ends at the highest that one of its ends leads to. */
  lemma WalkFromZero(zs: seq<int>, c: nat)
    ensures Walk(0, zs) == c <==>
              (forall j | 0 <= j <= |zs| :: Sum(zs[j..]) <= c) && exists j :: 0 <= j <= |zs| && Sum(zs[j..]) == c
  {
    WalkEnds(0, zs);
    assert zs[0..] == zs;
    forall j | 0 <= j <= |zs|
      ensures Walk(0, zs) >= Sum(zs[j..])
    {
      WalkAboveEnds(0, zs, j);
    }
    if Walk(0, zs) == Sum(zs) {
      assert Sum(zs[0..]) == Walk(0, zs);
    }
  }

  // ---------------------------------------------------------------------------
  // Taking a batch back

  /** What taking an event back adds; an opening has lost what it counted. */
  ghost function BackStep(c0: Counts, es: seq<Part>, k: nat, t: string): int
    requires k < |es|
  {
    if IsOpening(c0, es, k) then 0 else 0 - Signed(es[k], t)
  }

  ghost function BackSteps(c0: Counts, es: seq<Part>, t: string): (zs: seq<int>)
    ensures |zs| == |es|
  {
    seq(|es|, k requires 0 <= k < |es| => BackStep(c0, es, k, t))
  }

  /** The records from `k` on are as they were, but those of openings are empty, and the index shares none of them. */
  ghost predicate IsPlain(c0: Counts, es: seq<Part>, k: nat, s: Shelf) {
    && s.Valid() && |s.records| == |es| && k <= |es|
    && (forall j | k <= j < |es| :: s.records[j] == if IsOpening(c0, es, j) then map[] else es[j].counts)
    && (s.owner.Some? ==> s.owner.value < k)
  }

  /** Taking one event back counts on, cut off at zero. */
  lemma BackOnce(c0: Counts, es: seq<Part>, k: nat, s: Shelf, t: string)
    requires AllTidy(es) && k < |es| && s.Valid() && |s.records| == |es|
    requires s.records[k] == if IsOpening(c0, es, k) then map[] else es[k].counts
    ensures CountIn(s.Apply(k, !es[k].insert).counts, t) == Max(0, CountIn(s.counts, t) + BackStep(c0, es, k, t))
  {
    hide AddTables, SubtractTables, Tidy;
    AddedAndSubtracted(s.counts, s.records[k], t);
    NothingAdded(s.counts, s.records[k], t);
  }

  lemma PlainStep(c0: Counts, es: seq<Part>, k: nat, s: Shelf)
    requires AllTidy(es) && k < |es| && IsPlain(c0, es, k, s)
    ensures IsPlain(c0, es, k + 1, s.Apply(k, !es[k].insert))
  {
    hide IsOpening, AddTables, SubtractTables, Tidy;
    ApplyIsValid(s, k, !es[k].insert);
  }

  /** From a plain state on the counts walk as the records say. */
  lemma {:induction false} PlainWalk(c0: Counts, es: seq<Part>, s: Shelf, i: nat, k: nat, t: string)
    requires AllTidy(es) && s.Valid() && |s.records| == |es| && i <= k <= |es| && IsPlain(c0, es, i, Undone(s, es, i))
    ensures IsPlain(c0, es, k, Undone(s, es, k))
    ensures CountIn(Undone(s, es, k).counts, t) == Walk(CountIn(Undone(s, es, i).counts, t), BackSteps(c0, es, t)[i..k])
    decreases k
  {
    hide IsPlain, BackStep, Shelf.Valid, Shelf.Apply;
    var zs := BackSteps(c0, es, t);
    if i < k {
      PlainWalk(c0, es, s, i, k - 1, t);
      PlainOne(c0, es, k - 1, Undone(s, es, k - 1), t);
      assert zs[i..k][..k - 1 - i] == zs[i..k - 1] && zs[i..k][k - 1 - i] == zs[k - 1];
    }
  }

  lemma PlainOne(c0: Counts, es: seq<Part>, k: nat, s: Shelf, t: string)
    requires AllTidy(es) && k < |es| && IsPlain(c0, es, k, s)
    ensures s.Valid() && |s.records| == |es| && IsPlain(c0, es, k + 1, s.Apply(k, !es[k].insert))
    ensures CountIn(s.Apply(k, !es[k].insert).counts, t) == Max(0, CountIn(s.counts, t) + BackStep(c0, es, k, t))
  {
    hide IsOpening, BackStep;
    PlainStep(c0, es, k, s);
    BackOnce(c0, es, k, s, t);
  }

  /** As IsPlain, but the index still holds the dictionary of the last opening. */
  ghost predicate IsSharing(c0: Counts, es: seq<Part>, p: nat, k: nat, s: Shelf) {
    && s.Valid() && |s.records| == |es| && k <= p < |es| && s.owner == Some(p)
    && (forall j | k <= j < |es| && j != p :: s.records[j] == if IsOpening(c0, es, j) then map[] else es[j].counts)
  }

  lemma SharingStep(c0: Counts, es: seq<Part>, p: nat, k: nat, s: Shelf, t: string)
    requires AllTidy(es) && k < p && IsSharing(c0, es, p, k, s) && IsOpening(c0, es, p)
    ensures var r := s.Apply(k, !es[k].insert);
            && (r.counts != map[] ==> IsSharing(c0, es, p, k + 1, r))
            && (r.counts == map[] ==> IsPlain(c0, es, k + 1, r))
            && CountIn(r.counts, t) == Max(0, CountIn(s.counts, t) + BackStep(c0, es, k, t))
  {
    hide IsOpening, AddTables, SubtractTables, Tidy, BackStep;
    ApplyIsValid(s, k, !es[k].insert);
    BackOnce(c0, es, k, s, t);
  }

  /** Taking the last opening back while it is shared takes the dictionary away from itself. */
  lemma OpeningErases(c0: Counts, es: seq<Part>, p: nat, s: Shelf)
    requires AllTidy(es) && IsSharing(c0, es, p, p, s) && IsOpening(c0, es, p)
    ensures var r := s.Apply(p, !es[p].insert);
            r.counts == map[] && IsPlain(c0, es, p + 1, r)
  {
    hide AddTables, SubtractTables, Tidy;
    ApplyIsValid(s, p, !es[p].insert);
    AddedAndSubtracted(s.counts, s.records[p], "");
    assert es[p].insert;
  }

  /** What the batch leaves counted, table by table. */
  ghost function AfterBatch(c0: Counts, es: seq<Part>, t: string): int {
    CountIn(c0, t) + Net(es, t)
  }

  /** While the first `k` events are taken back something stays counted. */
  ghost predicate StaysCounted(c0: Counts, es: seq<Part>, k: nat)
    requires forall t :: AfterBatch(c0, es, t) >= 0
  {
    k <= |es| && forall i | 0 <= i <= k :: IsCountedAfter(c0, es, i)
  }

  ghost predicate IsCountedAfter(c0: Counts, es: seq<Part>, i: nat)
    requires i <= |es| && forall t :: AfterBatch(c0, es, t) >= 0
  {
    exists t :: Walk(AfterBatch(c0, es, t), BackSteps(c0, es, t)[..i]) > 0
  }

  /** Nothing is counted any more, and so the index has lost the dictionary it shared. */
  ghost predicate IsBroken(c0: Counts, es: seq<Part>, s: Shelf, i: nat)
    requires s.Valid() && |s.records| == |es| && forall t :: AfterBatch(c0, es, t) >= 0
  {
    && i <= |es| && !IsCountedAfter(c0, es, i)
    && IsPlain(c0, es, i, Undone(s, es, i)) && Undone(s, es, i).counts == map[]
  }

  lemma {:induction false} SharingWalk(c0: Counts, es: seq<Part>, s: Shelf, p: nat, k: nat)
    requires AllTidy(es) && IsMade(c0, es, s) && IsLastOpening(c0, es, p) && k <= p
    requires forall t :: AfterBatch(c0, es, t) >= 0
    ensures StaysCounted(c0, es, k) ==> IsSharing(c0, es, p, k, Undone(s, es, k))
    ensures !StaysCounted(c0, es, k) ==>
              exists i :: 0 <= i <= k && IsBroken(c0, es, s, i)
    ensures StaysCounted(c0, es, k) ==>
              forall t :: CountIn(Undone(s, es, k).counts, t) == Walk(AfterBatch(c0, es, t), BackSteps(c0, es, t)[..k])
    decreases k
  {
    hide IsOpening, IsSharing, IsPlain, IsMarked, BackStep, Shelf.Valid, Shelf.Apply, AfterBatch, IsCountedAfter;
    if k == 0 {
      SharingStarts(c0, es, s, p);
      if !IsCountedAfter(c0, es, 0) {
        assert IsBroken(c0, es, s, 0);
      }
    } else {
      SharingWalk(c0, es, s, p, k - 1);
      if StaysCounted(c0, es, k - 1) {
        SharingNext(c0, es, s, p, k);
        if !IsCountedAfter(c0, es, k) {
          assert IsBroken(c0, es, s, k);
        }
      }
    }
  }

  lemma SharingStarts(c0: Counts, es: seq<Part>, s: Shelf, p: nat)
    requires AllTidy(es) && IsMade(c0, es, s) && IsLastOpening(c0, es, p)
    requires forall t :: AfterBatch(c0, es, t) >= 0
    ensures IsCountedAfter(c0, es, 0) ==> IsSharing(c0, es, p, 0, Undone(s, es, 0))
    ensures !IsCountedAfter(c0, es, 0) ==> IsPlain(c0, es, 0, Undone(s, es, 0)) && Undone(s, es, 0).counts == map[]
    ensures forall t :: CountIn(s.counts, t) == Walk(AfterBatch(c0, es, t), BackSteps(c0, es, t)[..0])
  {
    hide IsOpening;
    EmptyCounts(s.counts);
    forall t
      ensures CountIn(s.counts, t) == Walk(AfterBatch(c0, es, t), BackSteps(c0, es, t)[..0])
    {}
  }

  lemma SharingNext(c0: Counts, es: seq<Part>, s: Shelf, p: nat, k: nat)
    requires AllTidy(es) && s.Valid() && |s.records| == |es| && IsOpening(c0, es, p) && 0 < k <= p < |es|
    requires forall t :: AfterBatch(c0, es, t) >= 0
    requires IsSharing(c0, es, p, k - 1, Undone(s, es, k - 1))
    requires forall t ::
      CountIn(Undone(s, es, k - 1).counts, t) == Walk(AfterBatch(c0, es, t), BackSteps(c0, es, t)[..k - 1])
    ensures forall t :: CountIn(Undone(s, es, k).counts, t) == Walk(AfterBatch(c0, es, t), BackSteps(c0, es, t)[..k])
    ensures IsCountedAfter(c0, es, k) ==> IsSharing(c0, es, p, k, Undone(s, es, k))
    ensures !IsCountedAfter(c0, es, k) ==> IsPlain(c0, es, k, Undone(s, es, k)) && Undone(s, es, k).counts == map[]
  {
    hide IsOpening, IsSharing, IsPlain, BackStep, Shelf.Apply, AfterBatch;
    var u, r := Undone(s, es, k - 1), Undone(s, es, k);
    SharingStep(c0, es, p, k - 1, u, "");
    forall t
      ensures CountIn(r.counts, t) == Walk(AfterBatch(c0, es, t), BackSteps(c0, es, t)[..k])
    {
      SharingStep(c0, es, p, k - 1, u, t);
      var zs := BackSteps(c0, es, t);
      assert zs[..k][..k - 1] == zs[..k - 1] && zs[..k][k - 1] == zs[k - 1];
    }
    EmptyCounts(r.counts);
  }

  // ---------------------------------------------------------------------------
  // When a batch is taken back exactly

  lemma BackStepIs(c0: Counts, es: seq<Part>, k: nat, t: string)
    requires k < |es|
    ensures BackStep(c0, es, k, t) ==
              (if IsOpening(c0, es, k) then CountIn(es[k].counts, t) else 0) - Signed(es[k], t)
    ensures IsOpening(c0, es, k) ==> CountIn(es[k].counts, t) >= 0
  {}

  lemma {:induction false} SumBack(c0: Counts, es: seq<Part>, t: string, j: nat, k: nat)
    requires j <= k <= |es|
    ensures Sum(BackSteps(c0, es, t)[j..k]) >= 0 - Net(es[j..k], t)
    ensures (forall i | j <= i < k :: !IsOpening(c0, es, i)) ==>
              Sum(BackSteps(c0, es, t)[j..k]) == 0 - Net(es[j..k], t)
    ensures forall p | j <= p < k && IsOpening(c0, es, p) ::
              Sum(BackSteps(c0, es, t)[j..k]) >= CountIn(es[p].counts, t) - Net(es[j..k], t)
    decreases k
  {
    hide IsOpening, BackStep, Signed, CountIn;
    if j < k {
      SumBack(c0, es, t, j, k - 1);
      SumStep(c0, es, t, j, k);
      BackStepIs(c0, es, k - 1, t);
    } else {
      assert BackSteps(c0, es, t)[j..k] == [] && es[j..k] == [];
    }
  }

  lemma SumStep(c0: Counts, es: seq<Part>, t: string, j: nat, k: nat)
    requires j < k <= |es|
    ensures Sum(BackSteps(c0, es, t)[j..k]) == Sum(BackSteps(c0, es, t)[j..k - 1]) + BackStep(c0, es, k - 1, t)
    ensures Net(es[j..k], t) == Net(es[j..k - 1], t) + Signed(es[k - 1], t)
  {
    hide BackStep, Signed;
    var zs := BackSteps(c0, es, t);
    assert zs[j..k][..k - 1 - j] == zs[j..k - 1] && zs[j..k][k - 1 - j] == zs[k - 1];
    assert es[j..k][..k - 1 - j] == es[j..k - 1] && es[j..k][k - 1 - j] == es[k - 1];
  }

  /** The modal after a batch has been made and taken back. */
  ghost function AfterUndo(c0: Counts, es: seq<Part>): (c: Counts)
    requires Tidy(c0) && AllTidy(es)
    ensures Tidy(c)
  {
    Undone(Made(c0, es), es, |es|).counts
  }

  /** No end of the batch deletes more than was counted before the batch. */
  ghost predicate IsCovered(c0: Counts, es: seq<Part>, t: string) {
    forall j | 0 <= j <= |es| :: CountIn(c0, t) + Net(es[j..], t) >= 0
  }

  /**
   Of the ends of the batch after `p` none deletes more than was counted before the batch, and one deletes
   as much.
   */
  ghost predicate IsReached(c0: Counts, es: seq<Part>, p: nat, t: string) {
    && (forall j | p < j <= |es| :: CountIn(c0, t) + Net(es[j..], t) >= 0)
    && exists j :: p < j <= |es| && CountIn(c0, t) + Net(es[j..], t) == 0
  }

  lemma BatchFits(c0: Counts, es: seq<Part>)
    requires AllFit(c0, es)
    ensures forall t :: AfterBatch(c0, es, t) >= 0
  {
    forall t
      ensures AfterBatch(c0, es, t) >= 0
    {
      assert es[..|es|] == es && CountIn(c0, t) + Net(es[..|es|], t) >= 0;
    }
  }

  lemma WalkOfBatch(c0: Counts, es: seq<Part>, t: string)
    requires AllFit(c0, es) && NoOpening(c0, es) && AfterBatch(c0, es, t) >= 0
    ensures Walk(AfterBatch(c0, es, t), BackSteps(c0, es, t)) == CountIn(c0, t) <==> IsCovered(c0, es, t)
  {
    hide IsOpening, Sum, Net;
    var zs := BackSteps(c0, es, t);
    forall j | 0 <= j <= |es|
      ensures Sum(zs[j..]) == 0 - Net(es[j..], t)
    {
      SumBack(c0, es, t, j, |es|);
      assert zs[j..|es|] == zs[j..] && es[j..|es|] == es[j..];
    }
    assert zs[0..] == zs && es[0..] == es;
    WalkIsExact(AfterBatch(c0, es, t), zs, CountIn(c0, t));
  }

  /** Without an opening no record changes: the counts are restored iff no end of the batch deletes too much. */
  lemma UndoWithoutOpening(c0: Counts, es: seq<Part>)
    requires Tidy(c0) && AllTidy(es) && AllFit(c0, es) && NoOpening(c0, es)
    ensures AfterUndo(c0, es) == c0 <==> forall t :: IsCovered(c0, es, t)
  {
    hide IsOpening, Tidy, Walk, BackSteps, IsCovered, Shelf.Valid, Net;
    var s := Made(c0, es);
    MadeIsMade(c0, es);
    BatchFits(c0, es);
    forall t
      ensures CountIn(AfterUndo(c0, es), t) == CountIn(c0, t) <==> IsCovered(c0, es, t)
    {
      PlainWalk(c0, es, s, 0, |es|, t);
      assert BackSteps(c0, es, t)[0..|es|] == BackSteps(c0, es, t);
      WalkOfBatch(c0, es, t);
    }
    SameCounts(AfterUndo(c0, es), c0);
  }

  /** Once the shared dictionary is lost too much stays counted. */
  lemma BrokenIsNotUndone(c0: Counts, es: seq<Part>, s: Shelf, p: nat, i: nat)
    requires AllTidy(es) && s.Valid() && |s.records| == |es| && IsOpening(c0, es, p) && i <= p < |es|
    requires forall t :: AfterBatch(c0, es, t) >= 0
    requires IsBroken(c0, es, s, i)
    ensures Undone(s, es, |es|).counts != c0
  {
    hide IsPlain, BackSteps, Walk, Sum, Shelf.Valid;
    assert es[p].counts != map[] && Tidy(es[p].counts);
    EmptyCounts(es[p].counts);
    var t :| CountIn(es[p].counts, t) > 0;
    var zs := BackSteps(c0, es, t);
    PlainWalk(c0, es, s, i, |es|, t);
    assert zs[i..|es|] == zs[i..] && zs[0..|es|] == zs && es[0..|es|] == es;
    WalkAbove(0, zs[i..]);
    WalkAbove(AfterBatch(c0, es, t), zs[..i]);
    WalkSplit(0, zs, i);
    SumBack(c0, es, t, 0, |es|);
    assert Walk(AfterBatch(c0, es, t), zs[..i]) == 0;
    assert CountIn(Undone(s, es, |es|).counts, t) > CountIn(c0, t);
  }

  /** After the last opening has erased what was counted the rest counts up from zero. */
  lemma WalkAfterOpening(c0: Counts, es: seq<Part>, p: nat, t: string)
    requires IsLastOpening(c0, es, p)
    ensures Walk(0, BackSteps(c0, es, t)[p + 1..]) == CountIn(c0, t) <==> IsReached(c0, es, p, t)
  {
    hide IsOpening, Sum, Net, Walk;
    var zs := BackSteps(c0, es, t)[p + 1..];
    forall j | p < j <= |es|
      ensures Sum(zs[j - p - 1..]) == 0 - Net(es[j..], t)
    {
      SumBack(c0, es, t, j, |es|);
      assert zs[j - p - 1..] == BackSteps(c0, es, t)[j..|es|] && es[j..|es|] == es[j..];
    }
    WalkFromZero(zs, CountIn(c0, t));
    if IsReached(c0, es, p, t) {
      var j :| p < j <= |es| && CountIn(c0, t) + Net(es[j..], t) == 0;
      assert Sum(zs[j - p - 1..]) == CountIn(c0, t);
      forall i | 0 <= i <= |zs|
        ensures Sum(zs[i..]) <= CountIn(c0, t)
      {
        assert Sum(zs[i + p + 1 - p - 1..]) == 0 - Net(es[i + p + 1..], t);
      }
    }
    if i :| 0 <= i <= |zs| && Sum(zs[i..]) == CountIn(c0, t) {
      assert Sum(zs[i + p + 1 - p - 1..]) == 0 - Net(es[i + p + 1..], t);
    }
  }

  /**
   If inserts have met the modal when nothing was counted under it, the counts are restored iff something stays counted
   until the last of these inserts has been taken back, and the events after it delete just what was counted before.
   */
  lemma UndoWithOpening(c0: Counts, es: seq<Part>, p: nat)
    requires Tidy(c0) && AllTidy(es) && AllFit(c0, es) && IsLastOpening(c0, es, p)
    requires forall t :: AfterBatch(c0, es, t) >= 0
    ensures AfterUndo(c0, es) == c0 <==> StaysCounted(c0, es, p) && forall t :: IsReached(c0, es, p, t)
  {
    hide IsOpening, IsPlain, IsSharing, IsMade, Tidy, Walk, BackSteps, IsReached, AllFit, Shelf.Valid, Shelf.Apply;
    var s := Made(c0, es);
    MadeIsMade(c0, es);
    SharingWalk(c0, es, s, p, p);
    if !StaysCounted(c0, es, p) {
      var i :| 0 <= i <= p && IsBroken(c0, es, s, i);
      BrokenIsNotUndone(c0, es, s, p, i);
    } else {
      OpeningErases(c0, es, p, Undone(s, es, p));
      forall t
        ensures CountIn(AfterUndo(c0, es), t) == CountIn(c0, t) <==> IsReached(c0, es, p, t)
      {
        PlainWalk(c0, es, s, p + 1, |es|, t);
        assert BackSteps(c0, es, t)[p + 1..|es|] == BackSteps(c0, es, t)[p + 1..];
        WalkAfterOpening(c0, es, p, t);
      }
      SameCounts(AfterUndo(c0, es), c0);
    }
  }

  /**
   The counts come back: no end of the batch deletes too much if no insert meets the modal uncounted, and otherwise
   what the last such insert shares with the index outlasts the events before it, and those after it delete all.
   */
  ghost predicate ComesBack(c0: Counts, es: seq<Part>)
    requires forall t :: AfterBatch(c0, es, t) >= 0
  {
    if NoOpening(c0, es) then forall t :: IsCovered(c0, es, t)
    else exists p :: IsLastOpening(c0, es, p) && StaysCounted(c0, es, p) && forall t :: IsReached(c0, es, p, t)
  }

  /** When a batch that is made and then taken back leaves the counts as they were. */
  lemma UndoIsExact(c0: Counts, es: seq<Part>)
    requires Tidy(c0) && AllTidy(es) && AllFit(c0, es)
    ensures forall t :: AfterBatch(c0, es, t) >= 0
    ensures AfterUndo(c0, es) == c0 <==> ComesBack(c0, es)
  {
    hide IsOpening, Net, StaysCounted, AfterUndo, Tidy, IsCovered, IsReached, AfterBatch, AllFit;
    BatchFits(c0, es);
    if NoOpening(c0, es) {
      UndoWithoutOpening(c0, es);
    } else {
      var p := FindLast(c0, es, |es|);
      UndoWithOpening(c0, es, p);
      forall p' | IsLastOpening(c0, es, p')
        ensures p' == p
      {}
    }
  }

  // ---------------------------------------------------------------------------
  // Batches that delete only what was there before

  function Sized(es: seq<Part>, insert: bool, t: string): nat {
    if es == [] then 0
    else
      var n := |es| - 1;
      Sized(es[..n], insert, t) + if es[n].insert == insert then CountIn(es[n].counts, t) else 0
  }

  lemma {:induction false} NetOfSizes(es: seq<Part>, t: string)
    ensures Net(es, t) == Sized(es, true, t) - Sized(es, false, t)
    decreases |es|
  {
    if es != [] {
      NetOfSizes(es[..|es| - 1], t);
    }
  }

  lemma {:induction false} SizeSplit(es: seq<Part>, k: nat, insert: bool, t: string)
    requires k <= |es|
    ensures Sized(es, insert, t) == Sized(es[..k], insert, t) + Sized(es[k..], insert, t)
    decreases |es|
  {
    if k == |es| {
      assert es[..k] == es && es[k..] == [];
    } else {
      var n := |es| - 1;
      SizeSplit(es[..n], k, insert, t);
      assert es[..n][..k] == es[..k] && es[k..][..n - k] == es[..n][k..] && es[k..][n - k] == es[n];
    }
  }

  /** All deletes together take no more than was there before the batch. */
  ghost predicate DeletesStored(c0: Counts, es: seq<Part>) {
    forall t :: Sized(es, false, t) <= CountIn(c0, t)
  }

  lemma StoredFits(c0: Counts, es: seq<Part>)
    requires DeletesStored(c0, es)
    ensures AllFit(c0, es) && forall t :: IsCovered(c0, es, t)
  {
    hide Net, Sized;
    forall k, t | 0 <= k <= |es|
      ensures CountIn(c0, t) + Net(es[..k], t) >= 0 && CountIn(c0, t) + Net(es[k..], t) >= 0
    {
      SizeSplit(es, k, false, t);
      NetOfSizes(es[..k], t);
      NetOfSizes(es[k..], t);
    }
  }

  /** What such a batch has done when an insert meets the modal with nothing counted under it. */
  lemma OpeningOfStored(c0: Counts, es: seq<Part>, p: nat, k: nat, t: string)
    requires DeletesStored(c0, es) && IsOpening(c0, es, p) && k <= p < |es|
    ensures Sized(es[..p], false, t) == CountIn(c0, t) && Sized(es[..p], true, t) == 0 && Sized(es[p..], false, t) == 0
    ensures CountIn(c0, t) == 0 ==> Sized(es[..k], false, t) == 0 && Sized(es[..k], true, t) == 0
  {
    hide Net, Sized;
    NetOfSizes(es[..p], t);
    SizeSplit(es, p, false, t);
    SizeSplit(es[..p], k, false, t);
    SizeSplit(es[..p], k, true, t);
    assert es[..p][..k] == es[..k];
  }

  lemma {:induction false} NothingToTakeBack(c0: Counts, es: seq<Part>, t: string, k: nat)
    requires k <= |es| && Sized(es[..k], false, t) == 0 && Sized(es[..k], true, t) == 0
    ensures Sum(BackSteps(c0, es, t)[..k]) == 0
    decreases k
  {
    hide IsOpening;
    if k > 0 {
      var zs := BackSteps(c0, es, t);
      assert es[..k][..k - 1] == es[..k - 1] && zs[..k][..k - 1] == zs[..k - 1];
      NothingToTakeBack(c0, es, t, k - 1);
    }
  }

  /** With nothing counted before the batch something stays counted until the opening has been taken back. */
  lemma FreshStaysCounted(c0: Counts, es: seq<Part>, p: nat)
    requires DeletesStored(c0, es) && IsLastOpening(c0, es, p) && AllTidy(es) && c0 == map[]
    requires forall t :: AfterBatch(c0, es, t) >= 0
    ensures StaysCounted(c0, es, p)
  {
    hide Net, Sized, BackSteps, Walk, Sum;
    assert Tidy(es[p].counts) && es[p].counts != map[];
    EmptyCounts(es[p].counts);
    var t :| CountIn(es[p].counts, t) > 0;
    forall i | 0 <= i <= p
      ensures IsCountedAfter(c0, es, i)
    {
      OpeningOfStored(c0, es, p, i, t);
      NothingToTakeBack(c0, es, t, i);
      WalkAbove(AfterBatch(c0, es, t), BackSteps(c0, es, t)[..i]);
      OpeningCounts(es, p, t);
      SizeSplit(es, p, true, t);
      SizeSplit(es, p, false, t);
      NetOfSizes(es, t);
    }
  }

  lemma OpeningCounts(es: seq<Part>, p: nat, t: string)
    requires p < |es| && es[p].insert
    ensures Sized(es[p..], true, t) >= CountIn(es[p].counts, t)
  {
    SizeSplit(es[p..], 1, true, t);
    assert es[p..][..1] == [es[p]] && [es[p]][..0] == [];
    assert Sized([es[p]], true, t) == CountIn(es[p].counts, t);
  }

  /**
   Deletes of stored rules, and any inserts: the counts are restored iff the modal was not counted before, or no insert
   meets it uncounted.
   */
  lemma UndoOfStored(c0: Counts, es: seq<Part>)
    requires Tidy(c0) && AllTidy(es) && DeletesStored(c0, es)
    ensures AfterUndo(c0, es) == c0 <==> c0 == map[] || NoOpening(c0, es)
  {
    hide IsOpening, Net, Sized, StaysCounted, AfterUndo, Tidy, DeletesStored;
    StoredFits(c0, es);
    BatchFits(c0, es);
    if NoOpening(c0, es) {
      UndoWithoutOpening(c0, es);
    } else {
      var p := FindLast(c0, es, |es|);
      UndoWithOpening(c0, es, p);
      ReachedFromZero(c0, es, p);
      if c0 == map[] {
        FreshStaysCounted(c0, es, p);
      }
    }
  }

  lemma {:induction false} FindLast(c0: Counts, es: seq<Part>, n: nat) returns (p: nat)
    requires n <= |es| && exists k :: 0 <= k < n && IsOpening(c0, es, k)
    requires forall k | n <= k < |es| :: !IsOpening(c0, es, k)
    ensures IsLastOpening(c0, es, p)
    decreases n
  {
    hide IsOpening;
    p := n - 1;
    if !IsOpening(c0, es, p) {
      p := FindLast(c0, es, n - 1);
    }
  }

  lemma {:induction false} NothingDeleted(es: seq<Part>, t: string)
    requires forall i | 0 <= i < |es| :: es[i].insert
    ensures Sized(es, false, t) == 0
    decreases |es|
  {
    if es != [] {
      NothingDeleted(es[..|es| - 1], t);
    }
  }

  /** Batches of inserts only, or of deletes only, can always be taken back. */
  lemma OneKindComesBack(c0: Counts, es: seq<Part>, insert: bool)
    requires Tidy(c0) && AllTidy(es) && DeletesStored(c0, es) && forall i | 0 <= i < |es| :: es[i].insert == insert
    ensures AfterUndo(c0, es) == c0
  {
    hide Net, Sized, AfterUndo, Tidy, DeletesStored;
    UndoOfStored(c0, es);
    if insert && c0 != map[] {
      EmptyCounts(c0);
      var t :| CountIn(c0, t) > 0;
      forall k | 0 <= k < |es|
        ensures !IsOpening(c0, es, k)
      {
        NothingDeleted(es[..k], t);
        NetOfSizes(es[..k], t);
      }
    }
  }

  lemma ReachedFromZero(c0: Counts, es: seq<Part>, p: nat)
    requires Tidy(c0) && DeletesStored(c0, es) && IsLastOpening(c0, es, p)
    ensures (forall t :: IsReached(c0, es, p, t)) <==> c0 == map[]
  {
    hide Net, Sized, IsOpening;
    forall t
      ensures IsReached(c0, es, p, t) <==> CountIn(c0, t) == 0
    {
      OpeningOfStored(c0, es, p, p, t);
      NothingCounted(t);
      assert es[|es|..] == [];
      forall j | p < j <= |es|
        ensures Net(es[j..], t) >= 0
      {
        assert es[p..][j - p..] == es[j..];
        SizeSplit(es[p..], j - p, false, t);
        NetOfSizes(es[j..], t);
      }
      assert CountIn(c0, t) + Net(es[|es|..], t) == CountIn(c0, t);
    }
    EmptyCounts(c0);
  }

  lemma NothingCounted(t: string)
    ensures Net([], t) == 0
  {}
}
