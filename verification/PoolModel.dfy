/** The state of the buffer pool as a value, what it means, and what each step does to that meaning.
    The meaning of a pool is View: the contents of every file with the buffered pages laid over the disk. */
module PoolModel {
  import opened Bytes
  import opened Pages
  import opened Values

  datatype Frame = Frame(pid: PageId, pins: nat, chance: bool, dirty: bool, data: Block)

  datatype Pool = Pool(clock: nat, frames: seq<Frame>, pageMap: map<PageId, nat>, files: Files)

  predicate OnDisk(files: Files, pid: PageId) {
    pid.file != UNASSIGNED && pid.file in files && pid.number < |files[pid.file]|
  }

  predicate FilesOk(files: Files) {
    UNASSIGNED !in files && forall f :: f in files ==> |files[f]| <= MAX_PAGES
  }

  /** Frame k: a frame with a page is the one the map names for it, and holds what the disk holds unless dirty. */
  predicate FrameOk(p: Pool, k: nat)
    requires k < |p.frames|
  {
    var f := p.frames[k];
    if f.pid.file == UNASSIGNED then
      f.pins == 0 && !f.chance && !f.dirty
    else
      && OnDisk(p.files, f.pid)
      && f.pid in p.pageMap && p.pageMap[f.pid] == k
      && (f.dirty || f.data == p.files[f.pid.file][f.pid.number])
  }

  predicate MapOk(p: Pool) {
    forall pid :: pid in p.pageMap ==>
      p.pageMap[pid] < |p.frames| && p.frames[p.pageMap[pid]].pid == pid && pid.file != UNASSIGNED
  }

  predicate Inv(p: Pool) {
    && p.clock < |p.frames|
    && FilesOk(p.files)
    && MapOk(p)
    && forall k :: 0 <= k < |p.frames| ==> FrameOk(p, k)
  }

  /** The page as a caller of the pool sees it. */
  function Logical(p: Pool, pid: PageId): Block
    requires MapOk(p) && OnDisk(p.files, pid)
  {
    if pid in p.pageMap then p.frames[p.pageMap[pid]].data else p.files[pid.file][pid.number]
  }

  function View(p: Pool): (v: Files)
    requires MapOk(p) && FilesOk(p.files)
    ensures v.Keys == p.files.Keys
    ensures forall f :: f in v ==> |v[f]| == |p.files[f]|
    ensures forall f, n {:trigger v[f][n]} :: f in v && 0 <= n < |v[f]| ==> v[f][n] == Logical(p, PageId(f, n))
  {
    map f | f in p.files :: ViewFile(p, f)
  }

  function ViewFile(p: Pool, f: FileId): (s: seq<Block>)
    requires MapOk(p) && f in p.files && f != UNASSIGNED
    ensures |s| == |p.files[f]|
    ensures forall n :: 0 <= n < |s| ==> s[n] == Logical(p, PageId(f, n))
  {
    seq(|p.files[f]|, n requires 0 <= n < |p.files[f]| => Logical(p, PageId(f, n)))
  }

  lemma InvBasic(p: Pool)
    requires Inv(p)
    ensures p.clock < |p.frames| && MapOk(p) && FilesOk(p.files)
  {
  }

  lemma InvFrame(p: Pool, k: nat)
    requires Inv(p) && k < |p.frames|
    ensures p.frames[k].pins > 0 ==> p.frames[k].pid.file != UNASSIGNED
    ensures p.frames[k].dirty ==> p.frames[k].pid.file != UNASSIGNED
    ensures p.frames[k].pid.file != UNASSIGNED ==>
              OnDisk(View(p), p.frames[k].pid) && OnDisk(p.files, p.frames[k].pid) && p.frames[k].pid.number < MAX_PAGES
    ensures MapOk(p) && FilesOk(p.files)
  {
    assert FrameOk(p, k);
  }

  /** A frame holding a page holds exactly the logical content of that page. */
  lemma FrameIsView(p: Pool, k: nat)
    requires Inv(p) && k < |p.frames| && p.frames[k].pid.file != UNASSIGNED
    ensures var pid := p.frames[k].pid; OnDisk(p.files, pid) && View(p)[pid.file][pid.number] == p.frames[k].data
  {
    assert FrameOk(p, k);
  }

  /** View is the only family of files that agrees with Logical everywhere. */
  lemma ViewIs(p: Pool, v: Files)
    requires MapOk(p) && FilesOk(p.files) && v.Keys == p.files.Keys
    requires forall f :: f in v ==> |v[f]| == |p.files[f]|
    requires forall f, n {:trigger v[f][n]} :: f in v && 0 <= n < |v[f]| ==> v[f][n] == Logical(p, PageId(f, n))
    ensures View(p) == v
  {
    forall f | f in v ensures View(p)[f] == v[f] {
      assert forall n :: 0 <= n < |v[f]| ==> View(p)[f][n] == v[f][n];
    }
  }

  // ---------- replacing a frame ----------

  /** The frames' replacement state: which are pinned, and which have their second chance. */
  function Next(c: nat, n: nat): (d: nat)
    requires c < n
    ensures d < n
  {
    if c + 1 < n then c + 1 else 0
  }

  /** Number of steps of the hand from c to i. */
  function Distance(c: nat, i: nat, n: nat): (d: nat)
    requires c < n && i < n
    ensures d < n
  {
    if c <= i then i - c else i + n - c
  }

  /** The hand moves up by one and wraps around, and so many steps take it to a frame. */
  lemma Steps(c: nat, i: nat, n: nat)
    requires c < n && i < n
    ensures Next(c, n) == (c + 1) % n && (c + Distance(c, i, n)) % n == i
  {
    if c > i {
      Wrapped(i, n);
    }
  }

  lemma Wrapped(i: nat, n: nat)
    requires i < n
    ensures (i + n) % n == i
  {
  }

  /** From c on, the hand comes to frame i after frame k. */
  predicate Later(c: nat, k: nat, i: nat, n: nat)
    requires c < n && k < n && i < n
  {
    Distance(c, k, n) < Distance(c, i, n)
  }

  datatype Swept = Swept(clock: nat, chance: seq<bool>)

  /** The second-chance sweep from c: stop at the first unpinned frame without a second chance, taking the
      second chance of each unpinned frame passed. Steps left to find one: u is some unpinned frame. */
  function Sweep(pinned: seq<bool>, chance: seq<bool>, c: nat, u: nat): (r: Swept)
    requires |pinned| == |chance| && c < |pinned| && u < |pinned| && !pinned[u]
    ensures |r.chance| == |pinned| && r.clock < |pinned| && !pinned[r.clock] && !r.chance[r.clock]
    decreases SweepBound(chance, c, u)
  {
    if !pinned[c] && !chance[c] then Swept(c, chance)
    else Sweep(pinned, if pinned[c] then chance else chance[c := false], Next(c, |pinned|), u)
  }

  /** How many passes the sweep can still make before its last one. */
  function SweepBound(chance: seq<bool>, c: nat, u: nat): (b: nat)
    requires c < |chance| && u < |chance|
    ensures b < 2 * |chance|
  {
    Distance(c, u, |chance|) + if chance[u] then |chance| else 0
  }

  /** One pass of the sweep. */
  lemma SweepStep(pinned: seq<bool>, chance: seq<bool>, c: nat, u: nat, chance': seq<bool>)
    requires |pinned| == |chance| && c < |pinned| && u < |pinned| && !pinned[u] && (pinned[c] || chance[c])
    requires chance' == if pinned[c] then chance else chance[c := false]
    ensures SweepBound(chance', Next(c, |pinned|), u) < SweepBound(chance, c, u)
    ensures Sweep(pinned, chance', Next(c, |pinned|), u) == Sweep(pinned, chance, c, u)
  {
  }

  /** What the loop of the clock has come to within n passes, if it has stopped by then; the pass that stops it
      counts. Nothing is said here of whether it ever stops. */
  function After(pinned: seq<bool>, chance: seq<bool>, c: nat, n: nat): Option<Swept>
    requires |pinned| == |chance| && c < |pinned|
    decreases n
  {
    if n == 0 then None
    else if !pinned[c] && !chance[c] then Some(Swept(c, chance))
    else After(pinned, if pinned[c] then chance else chance[c := false], Next(c, |pinned|), n - 1)
  }

  /** With an unpinned frame, the loop has stopped once it has made more passes than the bound, with the result
      of the sweep. */
  lemma {:induction false} AfterIsSweep(pinned: seq<bool>, chance: seq<bool>, c: nat, u: nat, n: nat)
    requires |pinned| == |chance| && c < |pinned| && u < |pinned| && !pinned[u] && n > SweepBound(chance, c, u)
    ensures After(pinned, chance, c, n) == Some(Sweep(pinned, chance, c, u))
    decreases n
  {
    if pinned[c] || chance[c] {
      AfterIsSweep(pinned, if pinned[c] then chance else chance[c := false], Next(c, |pinned|), u, n - 1);
    }
  }

  lemma {:induction false} NeverStops(pinned: seq<bool>, chance: seq<bool>, c: nat, n: nat)
    requires |pinned| == |chance| && c < |pinned| && forall u :: 0 <= u < |pinned| ==> pinned[u]
    ensures After(pinned, chance, c, n) == None
    decreases n
  {
    if n > 0 {
      NeverStops(pinned, chance, Next(c, |pinned|), n - 1);
    }
  }

  /** The loop stops exactly if some frame is unpinned, and then within twice as many passes as there are frames,
      with the result of the sweep. */
  lemma StopsExactly(pinned: seq<bool>, chance: seq<bool>, c: nat)
    requires |pinned| == |chance| && c < |pinned|
    ensures (exists n: nat :: After(pinned, chance, c, n).Some?) <==> exists u :: 0 <= u < |pinned| && !pinned[u]
    ensures forall u {:trigger pinned[u]} :: 0 <= u < |pinned| && !pinned[u] ==>
              After(pinned, chance, c, 2 * |pinned|) == Some(Sweep(pinned, chance, c, u))
  {
    hide Sweep;
    forall u {:trigger pinned[u]} | 0 <= u < |pinned| && !pinned[u]
      ensures After(pinned, chance, c, 2 * |pinned|) == Some(Sweep(pinned, chance, c, u))
    {
      AfterIsSweep(pinned, chance, c, u, 2 * |pinned|);
    }
    if !exists u :: 0 <= u < |pinned| && !pinned[u] {
      forall n: nat ensures After(pinned, chance, c, n) == None {
        NeverStops(pinned, chance, c, n);
      }
    } else {
      var u: nat :| u < |pinned| && !pinned[u];
      var n: nat := 2 * |pinned|;
      assert After(pinned, chance, c, n).Some?;
      assert exists m: nat :: After(pinned, chance, c, m).Some?;
    }
  }

  /** The bound is met: of two frames, the one under the hand is pinned and the other has its second chance. */
  lemma SlowestSweep()
    ensures After([true, false], [false, true], 0, 3) == None
    ensures After([true, false], [false, true], 0, 4) == Some(Swept(1, [false, false]))
  {
    var p := [true, false];
    assert [false, true][1 := false] == [false, false];
    assert After(p, [false, false], 1, 1) == Some(Swept(1, [false, false]));
    assert After(p, [false, false], 0, 2) == After(p, [false, false], 1, 1);
    assert After(p, [false, true], 1, 3) == After(p, [false, false], 0, 2);
    assert After(p, [false, false], 0, 1) == After(p, [false, false], 1, 0);
    assert After(p, [false, true], 1, 2) == After(p, [false, false], 0, 1);
  }

  /** After k passes of the loop from (chance, c) it stands at (chance', c') and has not stopped. */
  ghost predicate Reached(pinned: seq<bool>, chance: seq<bool>, c: nat, k: nat, chance': seq<bool>, c': nat)
    requires |pinned| == |chance| == |chance'| && c < |pinned| && c' < |pinned|
  {
    forall m: nat {:trigger After(pinned, chance', c', m)} ::
      After(pinned, chance, c, k + m) == After(pinned, chance', c', m)
  }

  lemma ReachedStep(pinned: seq<bool>, chance: seq<bool>, c: nat, k: nat, chance': seq<bool>, c': nat,
                    chance'': seq<bool>)
    requires |pinned| == |chance| == |chance'| && c < |pinned| && c' < |pinned|
    requires Reached(pinned, chance, c, k, chance', c') && (pinned[c'] || chance'[c'])
    requires chance'' == if pinned[c'] then chance' else chance'[c' := false]
    ensures Reached(pinned, chance, c, k + 1, chance'', Next(c', |pinned|))
  {
    forall m: nat
      ensures After(pinned, chance, c, (k + 1) + m) == After(pinned, chance'', Next(c', |pinned|), m)
    {
      assert After(pinned, chance', c', m + 1) == After(pinned, chance'', Next(c', |pinned|), m);
      assert k + (m + 1) == (k + 1) + m;
    }
  }

  lemma ReachedEnd(pinned: seq<bool>, chance: seq<bool>, c: nat, k: nat, chance': seq<bool>, c': nat)
    requires |pinned| == |chance| == |chance'| && c < |pinned| && c' < |pinned|
    requires Reached(pinned, chance, c, k, chance', c') && !pinned[c'] && !chance'[c']
    ensures After(pinned, chance, c, k) == None && After(pinned, chance, c, k + 1) == Some(Swept(c', chance'))
  {
    assert After(pinned, chance', c', 0) == None && After(pinned, chance', c', 1) == Some(Swept(c', chance'));
  }

  lemma ReachedStart(pinned: seq<bool>, chance: seq<bool>, c: nat)
    requires |pinned| == |chance| && c < |pinned|
    ensures Reached(pinned, chance, c, 0, chance, c)
  {
  }

  /** Which frame the sweep picks: with no second chance at the start, the closest one to the hand among the
      unpinned frames without one; with a second chance at the start, only when every unpinned frame had one, and
      then the closest of them all.
      It takes the second chances of the unpinned frames the hand has come to, and no others. */
  lemma {:induction false} SweepPicks(pinned: seq<bool>, chance: seq<bool>, c: nat, u: nat)
    requires |pinned| == |chance| && c < |pinned| && u < |pinned| && !pinned[u]
    ensures var r := Sweep(pinned, chance, c, u);
            && (forall i :: 0 <= i < |pinned| ==>
                  (r.chance[i] <==> chance[i] && (pinned[i] || (!chance[r.clock] && Later(c, r.clock, i, |pinned|)))))
            && (chance[r.clock] ==> forall i :: 0 <= i < |pinned| && !pinned[i] ==>
                  chance[i] && Distance(c, r.clock, |pinned|) <= Distance(c, i, |pinned|))
            && (!chance[r.clock] ==> forall i :: 0 <= i < |pinned| && !pinned[i] && !chance[i] ==>
                  Distance(c, r.clock, |pinned|) <= Distance(c, i, |pinned|))
    decreases SweepBound(chance, c, u)
  {
    if pinned[c] || chance[c] {
      var chance' := if pinned[c] then chance else chance[c := false];
      SweepPicks(pinned, chance', Next(c, |pinned|), u);
    }
  }

  /** The result of a sweep does not depend on which unpinned frame bounds it. */
  lemma {:induction false} SweepUnique(pinned: seq<bool>, chance: seq<bool>, c: nat, u: nat, w: nat)
    requires |pinned| == |chance| && c < |pinned| && u < |pinned| && !pinned[u] && w < |pinned| && !pinned[w]
    ensures Sweep(pinned, chance, c, u) == Sweep(pinned, chance, c, w)
    decreases SweepBound(chance, c, u)
  {
    if pinned[c] || chance[c] {
      SweepUnique(pinned, if pinned[c] then chance else chance[c := false], Next(c, |pinned|), u, w);
    }
  }

  function Pinned(fs: seq<Frame>): (s: seq<bool>)
    ensures |s| == |fs|
  {
    seq(|fs|, k requires 0 <= k < |fs| => fs[k].pins > 0)
  }

  function Chances(fs: seq<Frame>): (s: seq<bool>)
    ensures |s| == |fs|
  {
    seq(|fs|, k requires 0 <= k < |fs| => fs[k].chance)
  }

  function WithChances(fs: seq<Frame>, s: seq<bool>): (r: seq<Frame>)
    requires |s| == |fs|
    ensures |r| == |fs|
  {
    seq(|fs|, k requires 0 <= k < |fs| => fs[k].(chance := s[k]))
  }

  lemma WithChancesUpdate(fs: seq<Frame>, s: seq<bool>, k: nat, b: bool)
    requires |s| == |fs| && k < |fs|
    ensures WithChances(fs, s[k := b]) == WithChances(fs, s)[k := fs[k].(chance := b)]
  {
  }

  predicate HasUnpinned(p: Pool) {
    exists k :: 0 <= k < |p.frames| && p.frames[k].pins == 0
  }

  /** The pool after the sweep that picks a frame to reuse; the frame is the one under the hand. */
  function Advance(p: Pool, u: nat): (q: Pool)
    requires p.clock < |p.frames| && u < |p.frames| && p.frames[u].pins == 0
    ensures q.clock < |q.frames| == |p.frames|
    ensures q.frames[q.clock].pins == 0 && !q.frames[q.clock].chance
  {
    var r := Sweep(Pinned(p.frames), Chances(p.frames), p.clock, u);
    p.(clock := r.clock, frames := WithChances(p.frames, r.chance))
  }

  /** The loop of the clock stops on its pass number n, and not before, and leaves the pool as q. */
  ghost predicate Stopped(p: Pool, n: nat, q: Pool)
    requires p.clock < |p.frames| && n > 0
  {
    && After(Pinned(p.frames), Chances(p.frames), p.clock, n - 1) == None
    && exists r: Swept ::
         After(Pinned(p.frames), Chances(p.frames), p.clock, n) == Some(r) && |r.chance| == |p.frames|
         && q == p.(clock := r.clock, frames := WithChances(p.frames, r.chance))
  }

  lemma SweepHere(pinned: seq<bool>, chance: seq<bool>, c: nat, u: nat)
    requires |pinned| == |chance| && c < |pinned| && u < |pinned| && !pinned[u] && !pinned[c] && !chance[c]
    ensures Sweep(pinned, chance, c, u) == Swept(c, chance)
  {
  }

  lemma AdvanceKeeps(p: Pool, u: nat)
    requires Inv(p) && u < |p.frames| && p.frames[u].pins == 0
    ensures Inv(Advance(p, u)) && View(Advance(p, u)) == View(p)
  {
    SweepPicks(Pinned(p.frames), Chances(p.frames), p.clock, u);
    var q := Advance(p, u);
    forall k | 0 <= k < |q.frames| ensures FrameOk(q, k) {
      assert FrameOk(p, k);
    }
    ViewIs(q, View(p));
  }

  /** Taking a frame away from its page: written back if dirty, and forgotten by the map. */
  function Evict(p: Pool, k: nat): Pool
    requires Inv(p) && k < |p.frames| && p.frames[k].pins == 0 && !p.frames[k].chance
  {
    var f := p.frames[k];
    assert FrameOk(p, k);
    Pool(p.clock,
         p.frames[k := Frame(PageId(UNASSIGNED, 0), 0, false, false, f.data)],
         if f.pid.file == UNASSIGNED then p.pageMap else p.pageMap - {f.pid},
         if f.dirty then Store(p.files, f.pid, f.data) else p.files)
  }

  lemma EvictKeeps(p: Pool, k: nat)
    requires Inv(p) && k < |p.frames| && p.frames[k].pins == 0 && !p.frames[k].chance
    ensures Inv(Evict(p, k)) && View(Evict(p, k)) == View(p)
  {
    var q := Evict(p, k);
    assert FrameOk(p, k);
    assert MapOk(q) by {
      forall pid | pid in q.pageMap ensures q.pageMap[pid] < |q.frames| && q.frames[q.pageMap[pid]].pid == pid {
        assert p.pageMap[pid] != k;
      }
    }
    forall j | 0 <= j < |q.frames| ensures FrameOk(q, j) {
      assert FrameOk(p, j);
    }
    ViewIs(q, View(p));
  }

  /** Giving a frame without a page a page that no frame holds. */
  function Load(p: Pool, k: nat, pid: PageId): Pool
    requires pid.file in p.files && k < |p.frames|
  {
    var files := Extend(p.files, pid);
    Pool(p.clock, p.frames[k := Frame(pid, 1, true, false, files[pid.file][pid.number])], p.pageMap[pid := k], files)
  }

  lemma LoadInv(p: Pool, k: nat, pid: PageId)
    requires Inv(p) && k < |p.frames| && p.frames[k].pid.file == UNASSIGNED
    requires pid.file in p.files && pid.number < MAX_PAGES && pid !in p.pageMap
    ensures Inv(Load(p, k, pid))
  {
    var q := Load(p, k, pid);
    forall j | 0 <= j < |q.frames| ensures FrameOk(q, j) {
      assert FrameOk(p, j);
    }
  }

  lemma LoadKeeps(p: Pool, k: nat, pid: PageId)
    requires Inv(p) && k < |p.frames| && p.frames[k].pid.file == UNASSIGNED
    requires pid.file in p.files && pid.number < MAX_PAGES && pid !in p.pageMap
    ensures Inv(Load(p, k, pid)) && View(Load(p, k, pid)) == Extend(View(p), pid)
  {
    hide Inv, View, Logical, Load, Extend;
    InvBasic(p);
    LoadInv(p, k, pid);
    LoadSizes(p, k, pid);
    var q := Load(p, k, pid);
    InvBasic(q);
    var v := Extend(View(p), pid);
    forall f, n {:trigger v[f][n]} | f in v && 0 <= n < |v[f]| ensures v[f][n] == Logical(q, PageId(f, n)) {
      LoadLogical(p, k, pid, f, n);
    }
    ViewIs(q, v);
  }

  lemma LoadSizes(p: Pool, k: nat, pid: PageId)
    requires MapOk(p) && FilesOk(p.files) && k < |p.frames| && pid.file in p.files
    ensures var q, v := Load(p, k, pid), Extend(View(p), pid);
            q.files == Extend(p.files, pid) && v.Keys == q.files.Keys && forall f :: f in v ==> |v[f]| == |q.files[f]|
  {
  }

  /** The content of any page after loading one into a free frame. */
  lemma LoadLogical(p: Pool, k: nat, pid: PageId, f: FileId, n: nat)
    requires Inv(p) && k < |p.frames| && p.frames[k].pid.file == UNASSIGNED
    requires pid.file in p.files && pid.number < MAX_PAGES && pid !in p.pageMap && Inv(Load(p, k, pid))
    requires var v := Extend(View(p), pid); f in v && n < |v[f]|
    ensures OnDisk(Load(p, k, pid).files, PageId(f, n))
    ensures Extend(View(p), pid)[f][n] == Logical(Load(p, k, pid), PageId(f, n))
  {
    var o := PageId(f, n);
    if o in p.pageMap {
      assert FrameOk(p, p.pageMap[o]);
    }
  }

  /** A buffer miss: pick a frame, evict its page, load the new one. */
  function Replace(p: Pool, k: nat, pid: PageId): Pool
    requires Inv(p) && k < |p.frames| && p.frames[k].pins == 0 && !p.frames[k].chance && pid.file in p.files
  {
    assert FrameOk(p, k);
    Load(Evict(p, k), k, pid)
  }

  function Miss(p: Pool, u: nat, pid: PageId): Pool
    requires Inv(p) && u < |p.frames| && p.frames[u].pins == 0 && pid.file in p.files
  {
    AdvanceKeeps(p, u);
    var q := Advance(p, u);
    Replace(q, q.clock, pid)
  }

  /** A buffer hit: one more pin, and a second chance. */
  function Hit(p: Pool, k: nat): Pool
    requires k < |p.frames|
  {
    p.(frames := p.frames[k := p.frames[k].(pins := p.frames[k].pins + 1, chance := true)])
  }

  /** The whole state after a page was asked for: a hit if it was in the pool, a miss otherwise. */
  ghost predicate Served(p: Pool, q: Pool, pid: PageId) {
    && Inv(p) && pid.file in p.files
    && if pid in p.pageMap then p.pageMap[pid] < |p.frames| && q == Hit(p, p.pageMap[pid])
       else exists u: nat :: u < |p.frames| && p.frames[u].pins == 0 && q == Miss(p, u, pid)
  }

  lemma AdvanceOnce(p: Pool, u: nat, w: nat)
    requires p.clock < |p.frames| && u < |p.frames| && p.frames[u].pins == 0 && w < |p.frames| && p.frames[w].pins == 0
    ensures Advance(p, u) == Advance(p, w)
  {
    hide Sweep, WithChances;
    SweepUnique(Pinned(p.frames), Chances(p.frames), p.clock, u, w);
  }

  lemma MissOnce(p: Pool, u: nat, w: nat, pid: PageId)
    requires Inv(p) && pid.file in p.files
    requires u < |p.frames| && p.frames[u].pins == 0 && w < |p.frames| && p.frames[w].pins == 0
    ensures Miss(p, u, pid) == Miss(p, w, pid)
  {
    hide Inv, Advance, Replace;
    InvBasic(p);
    AdvanceOnce(p, u, w);
  }

  /** That state is determined: the pool leaves nothing to chance. */
  lemma ServedOnce(p: Pool, q: Pool, q': Pool, pid: PageId)
    requires Served(p, q, pid) && Served(p, q', pid)
    ensures q' == q
  {
    hide Inv, Miss, Hit;
    if pid !in p.pageMap {
      var u: nat :| u < |p.frames| && p.frames[u].pins == 0 && q == Miss(p, u, pid);
      var w: nat :| w < |p.frames| && p.frames[w].pins == 0 && q' == Miss(p, w, pid);
      MissOnce(p, u, w, pid);
    }
  }

  /** Whatever page a miss brings in, and whatever it evicts, the meaning of the pool is that of a plain
      page store; the new page has the one new pin, and no pinned frame lost its page. */
  lemma MissKeeps(p: Pool, u: nat, pid: PageId)
    requires Inv(p) && u < |p.frames| && p.frames[u].pins == 0
    requires pid.file in p.files && pid.number < MAX_PAGES && pid !in p.pageMap
    ensures var q := Miss(p, u, pid);
            && Inv(q) && View(q) == Extend(View(p), pid)
            && Acquired(p, q, q.clock, pid) && q.frames[q.clock].data == View(q)[pid.file][pid.number]
            && q.frames[q.clock].chance && !q.frames[q.clock].dirty
  {
    AdvanceKeeps(p, u);
    var a := Advance(p, u);
    EvictKeeps(a, a.clock);
    var e := Evict(a, a.clock);
    LoadKeeps(e, a.clock, pid);
    FrameIsView(Miss(p, u, pid), a.clock);
  }

  lemma HitKeeps(p: Pool, pid: PageId)
    requires Inv(p) && pid in p.pageMap
    ensures var k := p.pageMap[pid]; var q := Hit(p, k);
            && OnDisk(p.files, pid)
            && Inv(q) && View(q) == View(p) && Extend(View(p), pid) == View(p)
            && Acquired(p, q, k, pid) && q.frames[k].data == View(q)[pid.file][pid.number]
            && q.frames[k].chance && q.clock == p.clock && q.files == p.files
            && forall j :: 0 <= j < |p.frames| && j != k ==> q.frames[j] == p.frames[j]
  {
    var k := p.pageMap[pid];
    assert FrameOk(p, k);
    FrameIsView(p, k);
    PinsKeep(p, k, Hit(p, k).frames[k]);
  }

  // ---------- steps that change one frame in place ----------

  /** Pin counts and second chances do not matter to the meaning. */
  lemma PinsKeep(p: Pool, k: nat, f: Frame)
    requires Inv(p) && k < |p.frames| && p.frames[k].pid.file != UNASSIGNED
    requires f == p.frames[k].(pins := f.pins, chance := f.chance)
    ensures var q := p.(frames := p.frames[k := f]); Inv(q) && View(q) == View(p)
  {
    var q := p.(frames := p.frames[k := f]);
    assert FrameOk(p, k);
    forall j | 0 <= j < |q.frames| ensures FrameOk(q, j) {
      assert FrameOk(p, j);
    }
    ViewIs(q, View(p));
  }


  /** New bytes in a frame, marked dirty, are new bytes of its page and of no other page. */
  lemma WriteKeeps(p: Pool, k: nat, data: Block)
    requires Inv(p) && k < |p.frames| && p.frames[k].pid.file != UNASSIGNED
    ensures var pid := p.frames[k].pid; var q := p.(frames := p.frames[k := p.frames[k].(data := data, dirty := true)]);
            && Inv(q) && pid.file in View(p) && pid.number < |View(p)[pid.file]|
            && View(q) == Store(View(p), pid, data)
  {
    var q := p.(frames := p.frames[k := p.frames[k].(data := data, dirty := true)]);
    assert FrameOk(p, k);
    forall j | 0 <= j < |q.frames| ensures FrameOk(q, j) {
      assert FrameOk(p, j);
    }
    ViewIs(q, Store(View(p), p.frames[k].pid, data));
  }

  lemma StoreSame(v: Files, pid: PageId, b: Block)
    requires pid.file in v && pid.number < |v[pid.file]| && v[pid.file][pid.number] == b
    ensures Store(v, pid, b) == v
  {
    assert SetBlock(v[pid.file], pid.number, b) == v[pid.file];
  }

  // ---------- flushing ----------

  /** Frame k written to disk if it is dirty. */
  function FlushFrame(p: Pool, k: nat): Pool
    requires Inv(p) && k < |p.frames|
  {
    var f := p.frames[k];
    assert FrameOk(p, k);
    if f.dirty then p.(files := Store(p.files, f.pid, f.data), frames := p.frames[k := f.(dirty := false)]) else p
  }

  lemma FlushFrameKeeps(p: Pool, k: nat)
    requires Inv(p) && k < |p.frames|
    ensures Inv(FlushFrame(p, k)) && View(FlushFrame(p, k)) == View(p)
  {
    var q := FlushFrame(p, k);
    assert FrameOk(p, k);
    forall j | 0 <= j < |q.frames| ensures FrameOk(q, j) {
      assert FrameOk(p, j);
    }
    ViewIs(q, View(p));
  }

  /** With every frame clean, the disk alone is the meaning of the pool. */
  lemma CleanViewIsDisk(p: Pool)
    requires Inv(p) && forall k :: 0 <= k < |p.frames| ==> !p.frames[k].dirty
    ensures View(p) == p.files
  {
    assert forall pid :: pid in p.pageMap ==> FrameOk(p, p.pageMap[pid]);
    ViewIs(p, p.files);
  }

  /** A pool without pages shows the disk. */
  lemma NewPool(p: Pool)
    requires p.clock == 0 && |p.frames| > 0 && p.pageMap == map[] && FilesOk(p.files)
    requires forall k :: 0 <= k < |p.frames| ==>
              p.frames[k] == Frame(PageId(UNASSIGNED, 0), 0, false, false, p.frames[k].data)
    ensures Inv(p) && View(p) == p.files
  {
    hide View;
    assert forall k :: 0 <= k < |p.frames| ==> FrameOk(p, k);
    CleanViewIsDisk(p);
  }

  // ---------- what callers rely on between their own steps ----------

  /** Nobody's pin was lost: same pin counts, and the pinned frames still hold the same pages. */
  predicate Balanced(p: Pool, q: Pool) {
    && |p.frames| == |q.frames|
    && forall k :: 0 <= k < |p.frames| ==>
         p.frames[k].pins == q.frames[k].pins && (p.frames[k].pins > 0 ==> p.frames[k].pid == q.frames[k].pid)
  }

  /** q is p with one more pin, on frame k, which holds page pid. */
  predicate Acquired(p: Pool, q: Pool, k: nat, pid: PageId) {
    && |p.frames| == |q.frames| && k < |p.frames|
    && q.frames[k].pid == pid && q.frames[k].pins == p.frames[k].pins + 1
    && forall j :: 0 <= j < |p.frames| ==>
         && (j != k ==> q.frames[j].pins == p.frames[j].pins)
         && (p.frames[j].pins > 0 ==> q.frames[j].pid == p.frames[j].pid)
  }

  function UnpinnedSet(p: Pool): set<nat> {
    set k | 0 <= k < |p.frames| && p.frames[k].pins == 0
  }

  /** How many frames can still be taken. */
  function Unpinned(p: Pool): nat {
    |UnpinnedSet(p)|
  }

  lemma UnpinnedHas(p: Pool)
    ensures Unpinned(p) > 0 ==> HasUnpinned(p)
  {
    if Unpinned(p) > 0 {
      var k :| k in UnpinnedSet(p);
      assert p.frames[k].pins == 0;
    }
  }

  lemma UnpinnedBalanced(p: Pool, q: Pool)
    requires Balanced(p, q)
    ensures Unpinned(p) == Unpinned(q)
  {
    assert UnpinnedSet(p) == UnpinnedSet(q);
  }

  /** Acquiring a page takes at most one unpinned frame. */
  lemma UnpinnedAcquired(p: Pool, q: Pool, k: nat, pid: PageId)
    requires Acquired(p, q, k, pid)
    ensures Unpinned(q) >= Unpinned(p) - 1
  {
    assert UnpinnedSet(p) - {k} == UnpinnedSet(q);
  }

  function Released(p: Pool, k: nat): Pool
    requires k < |p.frames| && p.frames[k].pins > 0
  {
    p.(frames := p.frames[k := p.frames[k].(pins := p.frames[k].pins - 1)])
  }

  /** Acquiring a page and releasing it is balanced. */
  lemma ReleaseBalances(p: Pool, q: Pool, k: nat, pid: PageId)
    requires Acquired(p, q, k, pid)
    ensures Balanced(p, Released(q, k))
  {
  }

  /** Acquiring a second page and then releasing the first leaves the second acquired. */
  lemma Handover(p: Pool, q: Pool, k: nat, pid: PageId, r: Pool, k': nat, pid': PageId)
    requires Acquired(p, q, k, pid) && Acquired(q, r, k', pid')
    ensures k < |r.frames| && r.frames[k].pins > 0 && r.frames[k].pid == pid
    ensures Acquired(p, Released(r, k), k', pid')
  {
  }

  /** Every held page can be seen as acquired last. */
  lemma AcquiredLast(q: Pool, k: nat)
    requires k < |q.frames| && q.frames[k].pins > 0
    ensures Acquired(Released(q, k), q, k, q.frames[k].pid)
  {
  }

  lemma BalancedReflexive(p: Pool)
    ensures Balanced(p, p)
  {
  }

  lemma BalancedTransitive(p: Pool, q: Pool, r: Pool)
    requires Balanced(p, q) && Balanced(q, r)
    ensures Balanced(p, r)
  {
  }

  lemma AcquiredThenBalanced(p: Pool, q: Pool, r: Pool, k: nat, pid: PageId)
    requires Acquired(p, q, k, pid) && Balanced(q, r)
    ensures Acquired(p, r, k, pid)
  {
  }

  /** Held pages stay where they are. */
  lemma AcquiredKeeps(p: Pool, q: Pool, k: nat, pid: PageId, j: nat)
    requires Acquired(p, q, k, pid) && j < |p.frames| && p.frames[j].pins > 0
    ensures j < |q.frames| && q.frames[j].pid == p.frames[j].pid && q.frames[j].pins > 0
  {
  }

  lemma BalancedKeeps(p: Pool, q: Pool, j: nat)
    requires Balanced(p, q) && j < |p.frames| && p.frames[j].pins > 0
    ensures j < |q.frames| && q.frames[j].pid == p.frames[j].pid && q.frames[j].pins > 0
  {
  }

  /** q is p with nothing but the bytes and the dirty bit of frame k changed. */
  predicate Rewritten(p: Pool, q: Pool, k: nat) {
    && k < |p.frames| == |q.frames|
    && q == p.(frames := p.frames[k := q.frames[k]])
    && q.frames[k] == p.frames[k].(data := q.frames[k].data, dirty := q.frames[k].dirty)
  }

  lemma RewrittenBalanced(p: Pool, q: Pool, k: nat)
    requires Rewritten(p, q, k)
    ensures Balanced(p, q)
  {
  }

  lemma AcquiredRewritten(p: Pool, q: Pool, r: Pool, k: nat, pid: PageId)
    requires Acquired(p, q, k, pid) && Rewritten(q, r, k)
    ensures Acquired(p, r, k, pid)
  {
  }

  lemma AcquiredHolds(p: Pool, q: Pool, k: nat, pid: PageId)
    requires Acquired(p, q, k, pid)
    ensures k < |q.frames| == |p.frames| && q.frames[k].pid == pid && q.frames[k].pins > 0
  {
  }
}
