/** The buffer pool (src/system/buffer_manager.cc): frames over the files, with a page map, pin counts,
    dirty bits and second-chance replacement. Abs() is its state as a value of PoolModel; View() is its
    meaning, the contents of all files as the pool's callers see them. */
module BufferManagers {
  import opened Bytes
  import opened Pages
  import opened PoolModel

  ghost function Snap(f: Page): Frame
    requires f.Ok()
    reads f, f.bytes
  {
    Frame(f.pageId, f.pins, f.secondChance, f.dirty, f.Data())
  }

  /** Frames without pages, each with a buffer of its own. */
  method NewFrames(frameCount: nat) returns (fs: seq<Page>)
    ensures |fs| == frameCount
    ensures forall i :: 0 <= i < |fs| ==> fresh(fs[i]) && fresh(fs[i].bytes) && fs[i].Ok()
    ensures forall i :: 0 <= i < |fs| ==>
      fs[i].pageId == PageId(UNASSIGNED, 0) && fs[i].pins == 0 && !fs[i].dirty && !fs[i].secondChance
    ensures forall i, j :: 0 <= i < j < |fs| ==> fs[i] != fs[j] && fs[i].bytes != fs[j].bytes
  {
    fs := [];
    while |fs| < frameCount
      invariant |fs| <= frameCount
      invariant forall i :: 0 <= i < |fs| ==> fresh(fs[i]) && fresh(fs[i].bytes) && fs[i].Ok()
      invariant forall i :: 0 <= i < |fs| ==>
        fs[i].pageId == PageId(UNASSIGNED, 0) && fs[i].pins == 0 && !fs[i].dirty && !fs[i].secondChance
      invariant forall i, j :: 0 <= i < j < |fs| ==> fs[i] != fs[j] && fs[i].bytes != fs[j].bytes
    {
      var p := new Page();
      fs := fs + [p];
    }
  }

  class BufferManager {
    var clock: nat
    const frames: seq<Page>
    var pageMap: map<PageId, nat>
    const fileMgr: FileManager

    /** The frames and their buffers. */
    ghost function Store(): (s: set<object>)
      ensures forall f :: f in frames ==> f in s && f.bytes in s
      ensures forall i :: 0 <= i < |frames| ==> frames[i] in s && frames[i].bytes in s
    {
      (set f: Page | f in frames :: f as object) + (set f: Page | f in frames :: f.bytes as object)
    }

    ghost function Repr(): set<object> {
      {this, fileMgr} + Store()
    }

    /** The frames never change, and no two of them share a buffer. */
    ghost predicate Shape() {
      && (forall i :: 0 <= i < |frames| ==> frames[i].Ok())
      && (forall i, j :: 0 <= i < |frames| && 0 <= j < |frames| && i != j ==>
            frames[i] != frames[j] && frames[i].bytes != frames[j].bytes)
    }

    ghost function Frames(): (s: seq<Frame>)
      requires Shape()
      reads Store()
      ensures |s| == |frames| && forall i :: 0 <= i < |s| ==> s[i] == Snap(frames[i])
    {
      seq(|frames|, i requires 0 <= i < |frames| reads Store() => Snap(frames[i]))
    }

    ghost function Abs(): Pool
      requires Shape()
      reads Repr()
    {
      Pool(clock, Frames(), pageMap, fileMgr.files)
    }

    ghost predicate Valid()
      reads Repr()
    {
      Shape() && Inv(Abs())
    }

    ghost function View(): Files
      requires Valid()
      reads Repr()
    {
      PoolModel.View(Abs())
    }

    /** The caller holds page pid, in frame k. */
    ghost predicate Holds(page: Page, k: nat, pid: PageId)
      reads Repr()
    {
      Valid() && k < |frames| && frames[k] == page && page.pageId == pid && page.pins > 0
    }

    /** The pool can serve page pid: it has it, or a frame to take. */
    ghost predicate CanGet(pid: PageId)
      requires Valid()
      reads Repr()
    {
      pid in pageMap || Unpinned(Abs()) > 0
    }

    /** A held page is what the view says it is. */
    lemma HeldData(page: Page, k: nat, pid: PageId)
      requires Holds(page, k, pid)
      ensures page.Ok() && page in Repr() && page.bytes in Repr()
      ensures OnDisk(View(), pid) && page.Data() == View()[pid.file][pid.number]
    {
      hide PoolModel.View, Inv;
      InvFrame(Abs(), k);
      FrameIsView(Abs(), k);
    }

    lemma Bounded()
      requires Valid()
      ensures FilesOk(View())
    {
    }

    /** The files on disk are as long as the view says. */
    lemma CountIs(file: FileId)
      requires Valid() && file in View()
      ensures file in fileMgr.files && |fileMgr.files[file]| == |View()[file]|
    {
    }

    /** Two different pages held are two different frames, with buffers of their own. */
    lemma HeldApart(page: Page, k: nat, pid: PageId, page': Page, k': nat, pid': PageId)
      requires Holds(page, k, pid) && Holds(page', k', pid') && pid != pid'
      ensures k != k' && page != page' && page.bytes != page'.bytes
    {
    }

    lemma AbsOfHeld(page: Page, k: nat, pid: PageId)
      requires Holds(page, k, pid)
      ensures k < |Abs().frames| && Abs().frames[k].pid == pid && Abs().frames[k].pins > 0
    {
    }

    lemma HoldsByAbs(page: Page, k: nat, pid: PageId)
      requires Valid() && k < |frames| && frames[k] == page && Abs().frames[k].pid == pid && Abs().frames[k].pins > 0
      ensures Holds(page, k, pid)
    {
    }

    /** What changes in Abs() when nothing but frame k has been touched. */
    twostate lemma OnlyFrame(k: nat)
      requires Shape() && k < |frames|
      requires forall i :: 0 <= i < |frames| && i != k ==> unchanged(frames[i]) && unchanged(frames[i].bytes)
      ensures Frames() == old(Frames())[k := Snap(frames[k])]
    {
    }

    constructor (frameCount: nat, files: Files)
      requires frameCount > 0 && FilesOk(files)
      ensures Valid() && fresh(Repr()) && |frames| == frameCount
      ensures View() == files && fileMgr.files == files
      ensures clock == 0 && pageMap == map[]
      ensures |Abs().frames| == frameCount && forall k :: 0 <= k < frameCount ==> Abs().frames[k].pins == 0
    {
      hide Inv, PoolModel.View;
      var fm := new FileManager(files);
      var fs := NewFrames(frameCount);
      clock, frames, pageMap, fileMgr := 0, fs, map[], fm;
      new;
      NewPool(Abs());
    }

    /** frames[k].second_chance = false, as seen by Frames(). */
    method TakeSecondChance(k: nat)
      requires Shape() && k < |frames|
      modifies {frames[k]}`secondChance
      ensures Frames() == old(Frames())[k := old(Frames())[k].(chance := false)]
    {
      frames[k].secondChance := false;
      OnlyFrame(k);
    }

    /** clock++, wrapping around. */
    method MoveHand()
      requires Shape() && clock < |frames|
      modifies `clock
      ensures clock == Next(old(clock), |frames|) && Frames() == old(Frames())
    {
      clock := clock + 1;
      clock := if clock < |frames| then clock else 0;
    }

    /** Second chance: passes over the frames from the clock hand, skipping pinned frames and taking the
        second chance of unpinned ones, up to the first unpinned frame without one. It makes exactly as many
        passes as that takes, and at most twice as many as there are frames. */
    method GetUnusedPage(ghost u: nat) returns (page: Page, ghost passes: nat)
      requires Shape() && clock < |frames| && u < |frames| && frames[u].pins == 0
      modifies this`clock, frames`secondChance
      ensures Abs() == Advance(old(Abs()), u)
      ensures clock < |frames| && page == frames[clock]
      ensures 0 < passes <= 2 * |frames| && Stopped(old(Abs()), passes, Abs())
    {
      hide After, Sweep, Reached;
      ghost var p0 := Abs();
      ghost var pinned, chance := Pinned(p0.frames), Chances(p0.frames);
      assert WithChances(p0.frames, chance) == p0.frames;
      passes := 0;
      ReachedStart(pinned, chance, clock);
      while true
        invariant clock < |frames| == |chance| && Frames() == WithChances(p0.frames, chance)
        invariant passes + SweepBound(chance, clock, u) < 2 * |frames|
        invariant Reached(pinned, Chances(p0.frames), p0.clock, passes, chance, clock)
        invariant Sweep(pinned, chance, clock, u) == Sweep(pinned, Chances(p0.frames), p0.clock, u)
        decreases SweepBound(chance, clock, u)
      {
        ghost var chance0 := chance;
        assert Frames()[clock] == p0.frames[clock].(chance := chance[clock]);
        if frames[clock].pins == 0 {
          if frames[clock].secondChance == false {
            break;
          } else {
            TakeSecondChance(clock);
            WithChancesUpdate(p0.frames, chance, clock, false);
            chance := chance[clock := false];
          }
        }
        SweepStep(pinned, chance0, clock, u, chance);
        ReachedStep(pinned, Chances(p0.frames), p0.clock, passes, chance0, clock, chance);
        MoveHand();
        passes := passes + 1;
      }
      page := frames[clock];
      SweepHere(pinned, chance, clock, u);
      ReachedEnd(pinned, Chances(p0.frames), p0.clock, passes, chance, clock);
      passes := passes + 1;
    }

    /** Frame k gives up its page: it leaves the page map and, if dirty, is written back. */
    method GiveUp(k: nat)
      requires Valid() && k < |frames| && frames[k].pins == 0 && !frames[k].secondChance
      modifies `pageMap, fileMgr, {frames[k]}`dirty
      ensures Shape() && clock == old(clock) && !frames[k].dirty
      ensures frames[k].pins == 0 && !frames[k].secondChance
      ensures Frames() == old(Frames())[k := Snap(frames[k])]
      ensures pageMap == Evict(old(Abs()), k).pageMap && fileMgr.files == Evict(old(Abs()), k).files
    {
      hide PoolModel.View, Inv, Extend, Pages.Store;
      var page := frames[k];
      InvFrame(Abs(), k);
      if page.pageId.file != UNASSIGNED {
        pageMap := pageMap - {page.pageId};
      }
      if page.dirty {
        fileMgr.Flush(page);
      }
      OnlyFrame(k);
    }

    /** And takes page pid. */
    method Take(k: nat, pid: PageId)
      requires Shape() && k < |frames| && frames[k].pins == 0 && !frames[k].secondChance && !frames[k].dirty
      requires pid.file in fileMgr.files && pid.number < MAX_PAGES
      modifies `pageMap, fileMgr, frames[k], frames[k].bytes
      ensures Shape() && Abs() == Load(old(Abs()), k, pid)
    {
      hide Extend;
      var page := frames[k];
      page.Reassign(pid);
      fileMgr.ReadPage(pid, page.bytes);
      pageMap := pageMap[pid := k];
      OnlyFrame(k);
    }

    /** The tail of a miss. */
    method Replace(k: nat, pid: PageId)
      requires Valid() && k < |frames| && frames[k].pins == 0 && !frames[k].secondChance
      requires pid.file in fileMgr.files && pid.number < MAX_PAGES && pid !in pageMap
      modifies `pageMap, fileMgr, frames[k], frames[k].bytes
      ensures Shape() && Abs() == PoolModel.Replace(old(Abs()), k, pid)
    {
      hide PoolModel.View, Inv, Extend, Pages.Store;
      GiveUp(k);
      Take(k, pid);
    }

    method PinFrame(k: nat)
      requires Shape() && k < |frames|
      modifies {frames[k]}`pins, {frames[k]}`secondChance
      ensures Abs() == Hit(old(Abs()), k)
    {
      frames[k].Pin();
      OnlyFrame(k);
    }

    /** Returns the page, pinned. The pool means what a plain store of pages would mean after reading the
        page: nothing changed, or the file grew with zero pages. k is the frame of the page. */
    method GetPage(file: FileId, number: nat) returns (page: Page, ghost k: nat)
      requires Valid() && file in View() && number < MAX_PAGES
      requires PageId(file, number) in pageMap || HasUnpinned(Abs())
      modifies Repr()
      ensures Valid() && View() == Extend(old(View()), PageId(file, number))
      ensures Acquired(old(Abs()), Abs(), k, PageId(file, number)) && Holds(page, k, PageId(file, number))
      ensures page.Data() == View()[file][number] && page.secondChance
      ensures PageId(file, number) in old(pageMap) ==> clock == old(clock) && fileMgr.files == old(fileMgr.files)
      ensures Served(old(Abs()), Abs(), PageId(file, number))
    {
      hide PoolModel.View, Inv, Acquired;
      InvBasic(Abs());
      var pid := PageId(file, number);
      if pid !in pageMap {
        ghost var u :| 0 <= u < |frames| && Abs().frames[u].pins == 0;
        AdvanceKeeps(Abs(), u);
        MissKeeps(Abs(), u, pid);
        ghost var passes;
        page, passes := GetUnusedPage(u);
        k := clock;
        Replace(clock, pid);
      } else {
        HitKeeps(Abs(), pid);
        k := pageMap[pid];
        page := frames[pageMap[pid]];
        PinFrame(pageMap[pid]);
      }
    }

    /** The new page has a number no page of the file had before, and its bytes are zero. */
    method AppendPage(file: FileId) returns (page: Page, ghost k: nat)
      requires Valid() && file in View() && |View()[file]| < MAX_PAGES && HasUnpinned(Abs())
      modifies Repr()
      ensures Valid() && View() == old(View())[file := old(View())[file] + [ZeroBlock()]]
      ensures var pid := PageId(file, old(|View()[file]|)); Acquired(old(Abs()), Abs(), k, pid) && Holds(page, k, pid)
      ensures page.Data() == ZeroBlock()
    {
      hide Inv, Acquired, Served;
      InvBasic(Abs());
      var n := fileMgr.CountPages(file);
      page, k := GetPage(file, n);
      AcquiredHolds(old(Abs()), Abs(), k, PageId(file, n));
      assert View()[file] == old(View())[file] + [ZeroBlock()];
    }

    /** A caller releases a page it holds. */
    method Unpin(page: Page, ghost k: nat, ghost pid: PageId)
      requires Holds(page, k, pid)
      modifies page`pins
      ensures Valid() && View() == old(View())
      ensures old(k < |Abs().frames| && Abs().frames[k].pins > 0) && Abs() == Released(old(Abs()), k)
    {
      hide PoolModel.View, Inv;
      InvFrame(Abs(), k);
      PinsKeep(Abs(), k, Snap(page).(pins := page.pins - 1));
      page.Unpin();
      OnlyFrame(k);
    }

    /** Changes elsewhere do not matter to the pool. */
    twostate lemma Undisturbed()
      requires old(Valid())
      requires forall o :: o in Repr() ==> unchanged(o)
      ensures Valid() && Abs() == old(Abs()) && View() == old(View())
    {
      hide PoolModel.View, Inv;
      assert this in Repr() && fileMgr in Repr();
      assert Frames() == old(Frames());
    }

    /** What a caller's writes to a page it holds do to the pool: they replace that page in the view. */
    twostate lemma Written(k: nat)
      requires old(Valid()) && k < |frames| && old(frames[k].pins) > 0
      requires unchanged(this) && unchanged(fileMgr)
      requires forall i :: 0 <= i < |frames| && i != k ==> unchanged(frames[i]) && unchanged(frames[i].bytes)
      requires Snap(frames[k]) == old(Snap(frames[k])).(data := frames[k].Data(), dirty := frames[k].dirty)
      requires frames[k].dirty || Snap(frames[k]) == old(Snap(frames[k]))
      ensures Valid() && OnDisk(old(View()), frames[k].pageId)
      ensures View() == Pages.Store(old(View()), frames[k].pageId, frames[k].Data())
      ensures Abs() == old(Abs()).(frames := old(Abs().frames)[k := Snap(frames[k])])
    {
      hide PoolModel.View, Logical, Inv, Pages.Store;
      OnlyFrame(k);
      InvFrame(old(Abs()), k);
      if frames[k].dirty {
        WriteKeeps(old(Abs()), k, frames[k].Data());
      } else {
        assert Abs() == old(Abs());
        FrameIsView(Abs(), k);
        StoreSame(View(), frames[k].pageId, frames[k].Data());
      }
    }

    /** The same for a held page, once nothing but its bytes and its dirty bit may have changed. */
    twostate lemma WrittenHeld(k: nat)
      requires old(Valid()) && k < |frames| && old(frames[k].pins) > 0
      requires forall o :: o in Repr() && o != frames[k] && o != frames[k].bytes ==> unchanged(o)
      requires frames[k].pageId == old(frames[k].pageId)
      requires frames[k].pins == old(frames[k].pins) && frames[k].secondChance == old(frames[k].secondChance)
      requires frames[k].dirty || (!old(frames[k].dirty) && frames[k].Data() == old(frames[k].Data()))
      ensures Valid() && OnDisk(old(View()), frames[k].pageId) && Rewritten(old(Abs()), Abs(), k)
      ensures View() == Pages.Store(old(View()), frames[k].pageId, frames[k].Data())
    {
      hide PoolModel.View, Inv, Pages.Store;
      forall i | 0 <= i < |frames| && i != k ensures unchanged(frames[i]) && unchanged(frames[i].bytes) {
        assert frames[i] in Repr() && frames[i].bytes in Repr();
        assert frames[i] != frames[k] && frames[i].bytes != frames[k].bytes;
      }
      assert this in Repr() && fileMgr in Repr();
      InvFrame(old(Abs()), k);
      Written(k);
    }

    method FlushFrame(k: nat)
      requires Valid() && k < |frames|
      modifies fileMgr, {frames[k]}`dirty
      ensures Valid() && Abs() == PoolModel.FlushFrame(old(Abs()), k)
    {
      assert FrameOk(Abs(), k);
      FlushFrameKeeps(Abs(), k);
      if frames[k].dirty {
        fileMgr.Flush(frames[k]);
      }
      OnlyFrame(k);
    }

    /** With no page pinned, flushing makes the disk hold everything the pool's callers have written. */
    method Flush()
      requires Valid() && forall k :: 0 <= k < |frames| ==> frames[k].pins == 0
      modifies fileMgr, frames`dirty
      ensures Valid() && View() == old(View()) && fileMgr.files == View()
    {
      var i := 0;
      ghost var p0 := Abs();
      while i < |frames|
        invariant 0 <= i <= |frames| && Valid() && View() == old(View())
        invariant Abs().clock == p0.clock && Abs().pageMap == p0.pageMap
        invariant forall k :: 0 <= k < i ==> !Abs().frames[k].dirty
      {
        FlushFrameKeeps(Abs(), i);
        FlushFrame(i);
        i := i + 1;
      }
      CleanViewIsDisk(Abs());
    }
  }

  /** Reopening: whatever was written before a flush, a new pool of any size over the flushed files sees it. */
  method Reopen(pool: BufferManager, frameCount: nat) returns (pool': BufferManager)
    requires pool.Valid() && frameCount > 0 && forall k :: 0 <= k < |pool.frames| ==> pool.frames[k].pins == 0
    modifies pool.Repr()
    ensures pool'.Valid() && pool'.View() == old(pool.View())
  {
    pool.Flush();
    pool' := new BufferManager(frameCount, pool.fileMgr.files);
  }
}
