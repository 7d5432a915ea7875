/** The queue of superblocks that wait, already recorded, for their restoration units to be
    decided, and the loop that codes those that are ready. */
module LfQueue {
  import opened Bits
  import opened RangeInterval
  import opened EncoderState
  import opened Encoder
  import opened Writers

  const PLANES := 3

  /** What is fixed for a tile. The symbols that code restoration unit i of plane p at a
      superblock, and those that code a superblock's CDEF index, are given. */
  datatype Tile = Tile(planes: nat, enableRestoration: bool, allowIntrabc: bool,
                       lrf: (nat, nat, int) -> seq<Token>, cdef: nat -> seq<Token>)

  ghost predicate ValidTile(c: Tile) {
    && (c.planes == 1 || c.planes == PLANES)
    && (forall sb, p, i :: AllValid(c.lrf(sb, p, i)))
    && (forall sb :: AllValid(c.cdef(sb)))
  }

  /** A queued superblock, and the same with the recorded tokens in place of the recorders. */
  datatype Entry = Entry(sb: nat, lru: seq<int>, cdefCoded: bool, pre: WriterRecorder, post: WriterRecorder)

  datatype Job = Job(sb: nat, lru: seq<int>, cdefCoded: bool, pre: seq<Token>, post: seq<Token>)

  predicate Ready(c: Tile, lastReady: seq<int>, lru: seq<int>)
  {
    && c.planes <= |lastReady| && c.planes <= |lru|
    && forall p :: 0 <= p < c.planes ==> lru[p] <= lastReady[p]
  }

  // What the queue codes --------------------------------------------------------------------

  /** Raises the last unit of each plane to the superblock's own, up to plane n. */
  function Raised(last: seq<int>, lru: seq<int>, n: nat): (r: seq<int>)
    requires |last| == |lru| == PLANES && n <= PLANES
    ensures |r| == PLANES
    ensures forall p :: 0 <= p < PLANES ==>
      r[p] == if p < n && lru[p] != -1 && last[p] < lru[p] then lru[p] else last[p]
  {
    seq(PLANES, p requires 0 <= p < PLANES => if p < n && lru[p] != -1 && last[p] < lru[p] then lru[p] else last[p])
  }

  predicate CodesLrf(c: Tile) {
    !c.allowIntrabc && c.enableRestoration
  }

  /** The restoration units of the first n planes that the superblock is the first to reach. */
  function LrfTokens(c: Tile, coded: seq<int>, j: Job, n: nat): seq<Token>
    requires |coded| == |j.lru| == PLANES && n <= PLANES
  {
    if n == 0 then []
    else
      var here := if j.lru[n - 1] != -1 && coded[n - 1] < j.lru[n - 1] then c.lrf(j.sb, n - 1, j.lru[n - 1]) else [];
      LrfTokens(c, coded, j, n - 1) + here
  }

  function CdefTokens(c: Tile, j: Job): seq<Token> {
    if j.cdefCoded then c.cdef(j.sb) + j.post else []
  }

  /** A superblock codes its new restoration units, then its blocks up to the CDEF index, then
      the index and what follows it. */
  function Emitted(c: Tile, coded: seq<int>, j: Job): seq<Token>
    requires |coded| == |j.lru| == PLANES && c.planes <= PLANES
  {
    (if CodesLrf(c) then LrfTokens(c, coded, j, c.planes) else []) + j.pre + CdefTokens(c, j)
  }

  function CodedBy(c: Tile, coded: seq<int>, j: Job): (r: seq<int>)
    requires |coded| == |j.lru| == PLANES && c.planes <= PLANES
    ensures |r| == PLANES
  {
    if CodesLrf(c) then Raised(coded, j.lru, c.planes) else coded
  }

  predicate Shaped(jobs: seq<Job>) {
    forall i :: 0 <= i < |jobs| ==> |jobs[i].lru| == PLANES
  }

  /** The last coded unit of each plane after some superblocks, none being coded before. */
  function CodedAll(c: Tile, jobs: seq<Job>): (r: seq<int>)
    requires Shaped(jobs) && c.planes <= PLANES
    ensures |r| == PLANES
  {
    if jobs == [] then [-1, -1, -1] else CodedBy(c, CodedAll(c, jobs[..|jobs| - 1]), jobs[|jobs| - 1])
  }

  /** All that the superblocks of a tile code, in the order they were queued. */
  function EmittedAll(c: Tile, jobs: seq<Job>): seq<Token>
    requires Shaped(jobs) && c.planes <= PLANES
  {
    if jobs == [] then []
    else EmittedAll(c, jobs[..|jobs| - 1]) + Emitted(c, CodedAll(c, jobs[..|jobs| - 1]), jobs[|jobs| - 1])
  }

  lemma NextJob(c: Tile, jobs: seq<Job>, n: nat)
    requires Shaped(jobs) && n < |jobs| && c.planes <= PLANES
    ensures CodedAll(c, jobs[..n + 1]) == CodedBy(c, CodedAll(c, jobs[..n]), jobs[n])
    ensures EmittedAll(c, jobs[..n + 1]) == EmittedAll(c, jobs[..n]) + Emitted(c, CodedAll(c, jobs[..n]), jobs[n])
    ensures jobs[n..][1..] == jobs[n + 1..]
  {
    assert jobs[..n + 1][..n] == jobs[..n];
  }

  lemma TokensInOrder(t: seq<Token>, lrf: seq<Token>, pre: seq<Token>, index: seq<Token>, post: seq<Token>)
    ensures t + lrf + pre + index + post == t + (lrf + pre + (index + post))
    ensures t + lrf + pre == t + (lrf + pre + [])
  {
  }

  // Each restoration unit is coded once ---------------------------------------------------------

  predicate CodesUnit(c: Tile, jobs: seq<Job>, k: nat, p: nat)
    requires Shaped(jobs) && k < |jobs| && p < c.planes <= PLANES
  {
    CodesLrf(c) && jobs[k].lru[p] != -1 && CodedAll(c, jobs[..k])[p] < jobs[k].lru[p]
  }

  lemma {:induction false} CodedGrows(c: Tile, jobs: seq<Job>, k: nat, p: nat)
    requires Shaped(jobs) && k < |jobs| && p < c.planes <= PLANES
    ensures CodedAll(c, jobs)[p] >= CodedAll(c, jobs[..k])[p]
    ensures CodesLrf(c) && jobs[k].lru[p] != -1 ==> CodedAll(c, jobs)[p] >= jobs[k].lru[p]
  {
    var n := |jobs| - 1;
    if k < n {
      CodedGrows(c, jobs[..n], k, p);
      assert jobs[..n][..k] == jobs[..k];
    }
  }

  /** The last coded unit is that of some superblock, unless none was coded. */
  lemma {:induction false} CodedIsReached(c: Tile, jobs: seq<Job>, p: nat) returns (k: nat)
    requires Shaped(jobs) && p < c.planes <= PLANES && CodedAll(c, jobs)[p] != -1
    ensures k < |jobs| && CodesUnit(c, jobs, k, p) && jobs[k].lru[p] == CodedAll(c, jobs)[p]
  {
    var n := |jobs| - 1;
    if CodedAll(c, jobs)[p] == CodedAll(c, jobs[..n])[p] {
      k := CodedIsReached(c, jobs[..n], p);
      assert jobs[..n][..k] == jobs[..k];
    } else {
      k := n;
    }
  }

  /** No unit is coded twice. */
  lemma CodedAtMostOnce(c: Tile, jobs: seq<Job>, i: nat, k: nat, p: nat)
    requires Shaped(jobs) && i < k < |jobs| && p < c.planes <= PLANES
    requires CodesUnit(c, jobs, i, p) && CodesUnit(c, jobs, k, p)
    ensures jobs[i].lru[p] < jobs[k].lru[p]
  {
    CodedGrows(c, jobs[..k], i, p);
    assert jobs[..k][i] == jobs[i];
  }

  predicate FirstOf(jobs: seq<Job>, k: nat, p: nat)
    requires Shaped(jobs) && k < |jobs| && p < PLANES
  {
    jobs[k].lru[p] != -1 && forall i :: 0 <= i < k ==> jobs[i].lru[p] != jobs[k].lru[p]
  }

  /** Superblocks reach the units of a plane for the first time in increasing order. */
  predicate FirstsIncrease(jobs: seq<Job>, p: nat)
    requires Shaped(jobs) && p < PLANES
  {
    forall i, k :: 0 <= i < k < |jobs| && FirstOf(jobs, k, p) ==> jobs[i].lru[p] < jobs[k].lru[p]
  }

  /** Every unit is coded, with the first superblock in it and with no other, exactly when
      units are first reached in increasing order. */
  lemma CodedAtFirst(c: Tile, jobs: seq<Job>, p: nat)
    requires Shaped(jobs) && p < c.planes <= PLANES && CodesLrf(c)
    requires forall i :: 0 <= i < |jobs| ==> jobs[i].lru[p] >= -1
    ensures FirstsIncrease(jobs, p) <==>
      forall k :: 0 <= k < |jobs| ==> (CodesUnit(c, jobs, k, p) <==> FirstOf(jobs, k, p))
  {
    hide CodedAll;
    if FirstsIncrease(jobs, p) {
      forall k | 0 <= k < |jobs| ensures CodesUnit(c, jobs, k, p) <==> FirstOf(jobs, k, p) {
        if CodesUnit(c, jobs, k, p) {
          forall i | 0 <= i < k ensures jobs[i].lru[p] != jobs[k].lru[p] {
            CodedGrows(c, jobs[..k], i, p);
            assert jobs[..k][i] == jobs[i];
          }
        } else if FirstOf(jobs, k, p) {
          var i := CodedIsReached(c, jobs[..k], p);
        }
      }
    } else {
      var i, k :| 0 <= i < k < |jobs| && FirstOf(jobs, k, p) && jobs[i].lru[p] >= jobs[k].lru[p];
      CodedGrows(c, jobs[..k], i, p);
      assert jobs[..k][i] == jobs[i];
    }
  }

  // What a tile codes, by units ------------------------------------------------------------------

  /** The superblock's unit comes after those of all superblocks before it. */
  predicate NewHigh(jobs: seq<Job>, k: nat, p: nat)
    requires Shaped(jobs) && k < |jobs| && p < PLANES
  {
    jobs[k].lru[p] > -1 && forall i :: 0 <= i < k ==> jobs[i].lru[p] < jobs[k].lru[p]
  }

  /** The units of its first n planes that come after all before them, plane by plane. */
  function UnitTokens(c: Tile, jobs: seq<Job>, k: nat, n: nat): seq<Token>
    requires Shaped(jobs) && k < |jobs| && n <= PLANES
  {
    if n == 0 then []
    else
      UnitTokens(c, jobs, k, n - 1)
      + if NewHigh(jobs, k, n - 1) then c.lrf(jobs[k].sb, n - 1, jobs[k].lru[n - 1]) else []
  }

  /** A superblock's share of the tile: those units, if restoration is on and block copy is not,
      its own recording, and its CDEF index in the middle of that, if it has one. */
  function Share(c: Tile, jobs: seq<Job>, k: nat): seq<Token>
    requires Shaped(jobs) && k < |jobs| && c.planes <= PLANES
  {
    var j := jobs[k];
    (if c.enableRestoration && !c.allowIntrabc then UnitTokens(c, jobs, k, c.planes) else [])
    + j.pre + if j.cdefCoded then c.cdef(j.sb) + j.post else []
  }

  function Shares(c: Tile, jobs: seq<Job>, n: nat): seq<Token>
    requires Shaped(jobs) && n <= |jobs| && c.planes <= PLANES
  {
    if n == 0 then [] else Shares(c, jobs, n - 1) + Share(c, jobs, n - 1)
  }

  /** The last coded unit is the highest so far. */
  lemma {:induction false} CodedIsHighest(c: Tile, jobs: seq<Job>, p: nat, v: int)
    requires Shaped(jobs) && p < c.planes <= PLANES && CodesLrf(c)
    ensures CodedAll(c, jobs)[p] < v <==> v > -1 && forall i :: 0 <= i < |jobs| ==> jobs[i].lru[p] < v
  {
    if jobs == [] {
    } else {
      var n := |jobs| - 1;
      CodedIsHighest(c, jobs[..n], p, v);
      CodedIsHighest(c, jobs[..n], p, jobs[n].lru[p]);
      CodedAtLeast(c, jobs[..n], p);
    }
  }

  lemma {:induction false} CodedAtLeast(c: Tile, jobs: seq<Job>, p: nat)
    requires Shaped(jobs) && p < c.planes <= PLANES
    ensures CodedAll(c, jobs)[p] >= -1
  {
    if jobs == [] {
    } else {
      CodedAtLeast(c, jobs[..|jobs| - 1], p);
    }
  }

  /** A superblock codes its unit of a plane exactly if it comes after all before it. */
  lemma CodesNewHigh(c: Tile, jobs: seq<Job>, k: nat, p: nat)
    requires Shaped(jobs) && k < |jobs| && p < c.planes <= PLANES
    ensures CodesUnit(c, jobs, k, p) <==> CodesLrf(c) && NewHigh(jobs, k, p)
  {
    hide CodedAll;
    if CodesLrf(c) {
      CodedIsHighest(c, jobs[..k], p, jobs[k].lru[p]);
    }
  }

  lemma {:induction false} LrfTokensAreUnits(c: Tile, jobs: seq<Job>, k: nat, n: nat)
    requires Shaped(jobs) && k < |jobs| && n <= c.planes <= PLANES && CodesLrf(c)
    ensures LrfTokens(c, CodedAll(c, jobs[..k]), jobs[k], n) == UnitTokens(c, jobs, k, n)
  {
    hide CodedAll, NewHigh;
    if n == 0 {
    } else {
      LrfTokensAreUnits(c, jobs, k, n - 1);
      CodesNewHigh(c, jobs, k, n - 1);
    }
  }

  /** All that is emitted are the superblocks' shares. */
  lemma {:induction false} EmittedIsShares(c: Tile, jobs: seq<Job>, n: nat)
    requires Shaped(jobs) && n <= |jobs| && c.planes <= PLANES
    ensures EmittedAll(c, jobs[..n]) == Shares(c, jobs, n)
  {
    hide CodedAll, LrfTokens, UnitTokens, Shaped;
    if n == 0 {
    } else {
      EmittedIsShares(c, jobs, n - 1);
      NextJob(c, jobs, n - 1);
      if CodesLrf(c) {
        LrfTokensAreUnits(c, jobs, n - 1, c.planes);
      }
    }
  }

  /** If units are first reached in increasing order, those are the units reached first there. */
  lemma NewHighIsFirst(jobs: seq<Job>, k: nat, p: nat)
    requires Shaped(jobs) && k < |jobs| && p < PLANES && FirstsIncrease(jobs, p)
    requires forall i :: 0 <= i < |jobs| ==> jobs[i].lru[p] >= -1
    ensures NewHigh(jobs, k, p) <==> FirstOf(jobs, k, p)
  {
  }

  // Each unit is decided before it is coded -------------------------------------------------------

  predicate AlreadyDecided(c: Tile, rdoed: seq<int>, lru: seq<int>)
    requires c.planes <= PLANES == |rdoed| == |lru|
  {
    exists p :: 0 <= p < c.planes && lru[p] != -1 && lru[p] <= rdoed[p]
  }

  function RdoedBy(c: Tile, rdoed: seq<int>, j: Job): (r: seq<int>)
    requires |rdoed| == |j.lru| == PLANES && c.planes <= PLANES
    ensures |r| == PLANES
  {
    if (j.cdefCoded || c.enableRestoration) && !AlreadyDecided(c, rdoed, j.lru) then Raised(rdoed, j.lru, c.planes)
    else rdoed
  }

  predicate Below(c: Tile, a: seq<int>, b: seq<int>)
    requires c.planes <= PLANES == |a| == |b|
  {
    forall p :: 0 <= p < c.planes ==> a[p] <= b[p]
  }

  /** All of a superblock's units are decided or none is. */
  predicate DecidedTogether(c: Tile, rdoed: seq<int>, lru: seq<int>)
    requires c.planes <= PLANES == |rdoed| == |lru|
  {
    || (forall p :: 0 <= p < c.planes ==> lru[p] == -1 || lru[p] <= rdoed[p])
    || (forall p :: 0 <= p < c.planes ==> lru[p] == -1 || lru[p] > rdoed[p])
  }

  /** Nothing undecided is coded by a superblock, exactly when its units are decided together. */
  lemma DecidedBeforeCoded(c: Tile, rdoed: seq<int>, coded: seq<int>, j: Job)
    requires |rdoed| == |coded| == |j.lru| == PLANES && c.planes <= PLANES
    requires CodesLrf(c) && Below(c, coded, rdoed)
    ensures Below(c, CodedBy(c, coded, j), RdoedBy(c, rdoed, j)) <==> DecidedTogether(c, rdoed, j.lru)
  {
    var a, b := CodedBy(c, coded, j), RdoedBy(c, rdoed, j);
    if Below(c, a, b) && AlreadyDecided(c, rdoed, j.lru) {
      forall p | 0 <= p < c.planes ensures j.lru[p] == -1 || j.lru[p] <= rdoed[p] {
        assert a[p] <= b[p];
      }
    }
  }

  // The queue ---------------------------------------------------------------------------------

  ghost predicate Stands(e: Entry, j: Job)
    reads e.pre, e.post
  {
    && e.pre != e.post && e.pre.Valid() && e.post.Valid() && |e.lru| == PLANES
    && j == Job(e.sb, e.lru, e.cdefCoded, e.pre.storage, e.post.storage)
  }

  ghost function Recorders(q: seq<Entry>): set<object> {
    if q == [] then {} else {q[0].pre, q[0].post} + Recorders(q[1..])
  }

  /** The entries hold the recordings of the jobs, each in recorders of its own. */
  ghost predicate Queued(q: seq<Entry>, jobs: seq<Job>)
    reads Recorders(q)
  {
    && |q| == |jobs|
    && (q != [] ==> Stands(q[0], jobs[0]) && Recorders(q[1..]) !! {q[0].pre, q[0].post} && Queued(q[1..], jobs[1..]))
  }

  lemma {:induction false} RecordersAllocated(q: seq<Entry>)
    ensures allocated(Recorders(q))
  {
    if q != [] {
      RecordersAllocated(q[1..]);
    }
  }

  lemma {:induction false} QueuedPush(q: seq<Entry>, jobs: seq<Job>, e: Entry, j: Job)
    requires Queued(q, jobs) && Stands(e, j) && Recorders(q) !! {e.pre, e.post}
    ensures Queued(q + [e], jobs + [j]) && Recorders(q + [e]) == Recorders(q) + {e.pre, e.post}
  {
    if q == [] {
      assert [e][1..] == [] && [j][1..] == [];
      assert q + [e] == [e] && jobs + [j] == [j];
    } else {
      QueuedPush(q[1..], jobs[1..], e, j);
      assert (q + [e])[1..] == q[1..] + [e] && (jobs + [j])[1..] == jobs[1..] + [j];
    }
  }

  class TileQueue {
    const c: Tile
    const w: WriterEncoder
    var queue: seq<Entry>
    var lastReady: seq<int>
    var lastRdoed: seq<int>
    var lastCoded: seq<int>
    // The superblocks for which the loop filter decision was made.
    var decided: seq<nat>
    // Everything queued so far, and how much of it has been coded.
    ghost var jobs: seq<Job>
    ghost var popped: nat

    /** What has been coded is what the popped superblocks code, in the order they were
        queued; the rest is still recorded in the queue. */
    ghost predicate Valid()
      reads this, w, Recorders(queue)
    {
      && ValidTile(c) && w !in Recorders(queue) && this !in Recorders(queue)
      && |lastReady| == |lastRdoed| == |lastCoded| == PLANES
      && Shaped(jobs) && popped <= |jobs| && Queued(queue, jobs[popped..])
      && lastCoded == CodedAll(c, jobs[..popped])
      && w.Valid() && w.tokens == EmittedAll(c, jobs[..popped])
    }

    constructor (tile: Tile)
      requires ValidTile(tile)
      ensures Valid() && fresh(w) && jobs == [] && queue == [] && decided == []
    {
      c := tile;
      w := new WriterEncoder();
      queue, lastReady, lastRdoed, lastCoded := [], [-1, -1, -1], [-1, -1, -1], [-1, -1, -1];
      decided, jobs, popped := [], [], 0;
    }

    /** A recorded superblock joins the queue. */
    method Push(e: Entry)
      requires Valid() && |e.lru| == PLANES && e.pre != e.post && e.pre.Valid() && e.post.Valid()
      requires Recorders(queue) !! {e.pre, e.post} && w !in {e.pre as object, e.post}
      modifies this`queue, this`jobs
      ensures Valid() && queue == old(queue) + [e] && popped == old(popped)
      ensures jobs == old(jobs) + [Job(e.sb, e.lru, e.cdefCoded, e.pre.storage, e.post.storage)]
    {
      hide CodedAll, EmittedAll, Queued, Recorders, WriterEncoder.Valid, WriterRecorder.Valid;
      ghost var j := Job(e.sb, e.lru, e.cdefCoded, e.pre.storage, e.post.storage);
      QueuedPush(queue, jobs[popped..], e, j);
      assert (jobs + [j])[popped..] == jobs[popped..] + [j] && (jobs + [j])[..popped] == jobs[..popped];
      queue := queue + [e];
      jobs := jobs + [j];
    }

    /** Restoration units that become ready as a superblock is encoded. */
    method MarkReady(pli: nat, lru: int)
      requires Valid() && pli < c.planes
      modifies this`lastReady
      ensures Valid() && lastReady == old(lastReady)[pli := lru]
    {
      hide CodedAll, EmittedAll, Queued, Recorders, Shaped, WriterEncoder.Valid;
      lastReady := lastReady[pli := lru];
    }

    /** Symbols given as a whole go into the encoder one by one. */
    method StoreTokens(ts: seq<Token>)
      requires w.Valid() && AllValid(ts)
      modifies w
      ensures w.Valid() && w.tokens == old(w.tokens) + ts
    {
      hide StoredAll;
      for i := 0 to |ts|
        invariant w.Valid() && w.tokens == old(w.tokens) + ts[..i]
      {
        w.Store(ts[i]);
        assert ts[..i + 1] == ts[..i] + [ts[i]];
      }
      assert ts[..|ts|] == ts;
    }

    /** The decision is made once for all units of a superblock, if none was decided before. */
    method Decide(e: Entry)
      requires |lastRdoed| == |e.lru| == PLANES && c.planes <= PLANES
      modifies this`lastRdoed, this`decided
      ensures lastRdoed == RdoedBy(c, old(lastRdoed), Job(e.sb, e.lru, e.cdefCoded, [], []))
      ensures decided ==
        if (e.cdefCoded || c.enableRestoration) &&
           forall p :: 0 <= p < c.planes ==> e.lru[p] == -1 || e.lru[p] > old(lastRdoed)[p]
        then old(decided) + [e.sb] else old(decided)
      ensures forall p :: 0 <= p < c.planes ==>
        lastRdoed[p] == if decided == old(decided) || e.lru[p] == -1 then old(lastRdoed)[p] else e.lru[p]
    {
      if e.cdefCoded || c.enableRestoration {
        var alreadyRdoed := false;
        for pli := 0 to c.planes
          invariant !alreadyRdoed && forall p :: 0 <= p < pli ==> e.lru[p] == -1 || e.lru[p] > lastRdoed[p]
        {
          if e.lru[pli] != -1 && e.lru[pli] <= lastRdoed[pli] {
            alreadyRdoed := true;
            break;
          }
        }
        assert alreadyRdoed <==> AlreadyDecided(c, lastRdoed, e.lru);
        if !alreadyRdoed {
          decided := decided + [e.sb];
          for pli := 0 to c.planes
            invariant lastRdoed == Raised(old(lastRdoed), e.lru, pli) && decided == old(decided) + [e.sb]
          {
            if e.lru[pli] != -1 && lastRdoed[pli] < e.lru[pli] {
              lastRdoed := lastRdoed[pli := e.lru[pli]];
            }
          }
        }
      }
    }

    /** Restoration units are coded with the first superblock that reaches them. */
    method WriteLrf(e: Entry, ghost j: Job)
      requires ValidTile(c) && w.Valid() && |lastCoded| == |e.lru| == PLANES && j.sb == e.sb && j.lru == e.lru
      modifies this`lastCoded, w
      ensures w.Valid() && lastCoded == CodedBy(c, old(lastCoded), j)
      ensures w.tokens == old(w.tokens) + (if CodesLrf(c) then LrfTokens(c, old(lastCoded), j, c.planes) else [])
    {
      hide StoredAll, AllValid, WriterEncoder.Valid;
      if !c.allowIntrabc && c.enableRestoration {
        for pli := 0 to c.planes
          invariant w.Valid() && lastCoded == Raised(old(lastCoded), e.lru, pli)
          invariant w.tokens == old(w.tokens) + LrfTokens(c, old(lastCoded), j, pli)
        {
          if e.lru[pli] != -1 && lastCoded[pli] < e.lru[pli] {
            lastCoded := lastCoded[pli := e.lru[pli]];
            StoreTokens(c.lrf(e.sb, pli, e.lru[pli]));
          }
        }
      }
    }

    /** A superblock is coded: new restoration units first, CDEF in the middle of its blocks. */
    method CodeEntry(e: Entry, ghost j: Job)
      requires ValidTile(c) && w.Valid() && Stands(e, j) && |lastRdoed| == |lastCoded| == PLANES
      modifies this`lastRdoed, this`lastCoded, this`decided, w, e.pre, e.post
      ensures w.Valid() && w.tokens == old(w.tokens) + Emitted(c, old(lastCoded), j)
      ensures lastCoded == CodedBy(c, old(lastCoded), j) && lastRdoed == RdoedBy(c, old(lastRdoed), j)
    {
      hide WriterEncoder.Valid, WriterRecorder.Valid, LrfTokens, AllValid, AlreadyDecided, Raised;
      ghost var lrf := if CodesLrf(c) then LrfTokens(c, lastCoded, j, c.planes) else [];
      TokensInOrder(w.tokens, lrf, j.pre, c.cdef(j.sb), j.post);
      Decide(e);
      WriteLrf(e, j);
      e.pre.Replay(w);
      if e.cdefCoded {
        StoreTokens(c.cdef(e.sb));
        e.post.Replay(w);
      }
    }

    /** The first superblock is coded and leaves the queue. */
    method CodeHead()
      requires Valid() && queue != []
      modifies this`lastRdoed, this`lastCoded, this`decided, this`queue, this`popped, w, Recorders(queue)
      ensures Valid() && queue == old(queue)[1..] && popped == old(popped) + 1
      ensures jobs == old(jobs) && lastReady == old(lastReady)
      ensures lastRdoed == RdoedBy(c, old(lastRdoed), jobs[old(popped)])
    {
      hide CodedAll, EmittedAll, WriterEncoder.Valid, WriterRecorder.Valid, CodedBy, RdoedBy, Emitted;
      NextJob(c, jobs, popped);
      ghost var later := queue[1..];
      assert Queued(later, jobs[popped + 1..]) && Recorders(queue) == Recorders(later) + {queue[0].pre, queue[0].post};
      RecordersAllocated(later);
      CodeEntry(queue[0], jobs[popped]);
      queue := queue[1..];
      popped := popped + 1;
    }

    /** The first superblock is ready once its unit in every plane is. */
    method HeadReady() returns (ready: bool)
      requires Valid() && queue != []
      ensures Valid() && |queue[0].lru| == PLANES && ready == Ready(c, lastReady, queue[0].lru)
      ensures ready <==> forall p :: 0 <= p < c.planes ==> queue[0].lru[p] <= lastReady[p]
    {
      hide CodedAll, EmittedAll, Recorders, WriterEncoder.Valid, WriterRecorder.Valid;
      var e := queue[0];
      ready := true;
      for pli := 0 to c.planes
        invariant ready && forall p :: 0 <= p < pli ==> e.lru[p] <= lastReady[p]
      {
        if e.lru[pli] > lastReady[pli] {
          ready := false;
          break;
        }
      }
    }

    /** Superblocks are coded from the head of the queue until one is not ready. */
    method Check()
      requires Valid()
      modifies this`lastRdoed, this`lastCoded, this`decided, this`queue, this`popped, w, Recorders(queue)
      ensures Valid() && jobs == old(jobs) && lastReady == old(lastReady)
      ensures old(popped) <= popped && popped - old(popped) <= |old(queue)|
      ensures queue == old(queue)[popped - old(popped)..]
      ensures forall k :: 0 <= k < popped - old(popped) ==>
        |old(queue)[k].lru| == PLANES && Ready(c, lastReady, old(queue)[k].lru)
      ensures queue != [] ==> |queue[0].lru| == PLANES && !Ready(c, lastReady, queue[0].lru)
    {
      hide Valid, Ready;
      var checkQueue := true;
      while checkQueue
        invariant Valid() && jobs == old(jobs) && lastReady == old(lastReady)
        invariant Recorders(queue) <= old(Recorders(queue))
        invariant old(popped) <= popped && popped - old(popped) <= |old(queue)|
        invariant queue == old(queue)[popped - old(popped)..]
        invariant forall k :: 0 <= k < popped - old(popped) ==>
          |old(queue)[k].lru| == PLANES && Ready(c, lastReady, old(queue)[k].lru)
        invariant !checkQueue && queue != [] ==> |queue[0].lru| == PLANES && !Ready(c, lastReady, queue[0].lru)
        decreases |queue|, checkQueue
      {
        if queue != [] {
          checkQueue := HeadReady();
          if checkQueue {
            assert queue[0] == old(queue)[popped - old(popped)];
            CodeHead();
          }
        } else {
          checkQueue := false;
        }
      }
    }

    /** Once the queue has run empty, the tile's bytes hold its superblocks' shares one after
        another. For the units and indices as decided, it makes no difference when and how often
        the queue was checked. */
    method Done() returns (out: seq<u8>)
      requires Valid() && queue == []
      modifies w
      ensures AllValid(Shares(c, jobs, |jobs|)) && Holds(Code(Shares(c, jobs, |jobs|)), out)
    {
      hide Code, Holds, EmittedAll, CodedAll, Shares;
      assert jobs[..popped] == jobs;
      EmittedIsShares(c, jobs, |jobs|);
      out := w.Done();
    }
  }
}
