// Runs of the block device: any sequence of requests, downloads and initial prefetches.

module BlockNetRuns {
  import opened BlockNet
  import opened BlockNetProofs

  // ----- prefetching -----

  lemma {:induction false} PrefetchCorrect(d: Dev, origin: Image, disk: seq<Sector>, nums: seq<int>)
    requires Matches(d, origin, disk, Idle) && Legal(d, origin, Prefetch(nums))
    ensures Sized(d) && Matches(PrefetchStep(d, nums), origin, disk, Idle)
    decreases |nums|
  {
    CacheIsSized(d, origin);
    if nums != [] {
      var d1 := PrefetchOne(d, nums[0]);
      PrefetchOneCorrect(d, origin, disk, nums[0]);
      assert forall k :: 0 <= k < |nums[1..]| ==> nums[1..][k] == nums[k + 1];
      PrefetchCorrect(d1, origin, disk, nums[1..]);
    }
  }

  lemma PrefetchHit(d: Dev, origin: Image, disk: seq<Sector>, i: int)
    requires Matches(d, origin, disk, Idle) && 0 <= i < |d.blocks|
    ensures Sized(d) && Matches(Touch(d, d.cur, i), origin, disk, Idle)
  {
    CacheIsSized(d, origin);
    TouchKeeps(d, origin, d.cur, i);
    FrontKeeps(d.blocks, i);
    SameLoading(d.blocks, MoveToFront(d.blocks, i));
    forall x | 0 <= x < d.nbSectors ensures FlatAt(Touch(d, d.cur, i), origin, x) == FlatAt(d, origin, x) {}
  }

  lemma PrefetchMiss(d: Dev, origin: Image, disk: seq<Sector>, num: int)
    requires Matches(d, origin, disk, Idle) && 0 <= num < |origin| && IndexOf(d.blocks, num) < 0
    ensures Matches(StartLoad(d, num).(cur := d.cur), origin, disk, Idle) <==> num != d.cur
  {
    var r := StartLoad(d, num).(cur := d.cur);
    StartLoadKeeps(d, origin, num);
    assert CacheInv(r, origin);
    forall x | 0 <= x < d.nbSectors ensures FlatAt(r, origin, x) == FlatAt(d, origin, x) {}
  }

  lemma PrefetchOneCorrect(d: Dev, origin: Image, disk: seq<Sector>, num: int)
    requires Matches(d, origin, disk, Idle) && 0 <= num < |origin| && num != d.cur && Sized(d)
    ensures var r := PrefetchOne(d, num);
            Matches(r, origin, disk, Idle) && r.cur == d.cur
  {
    PrefetchExact(d, origin, disk, num);
  }

  /** Why prefetching is left to the start: a block may be prefetched into an idle device
      exactly when it is not the stale cur_block_num, or is cached already. */
  lemma PrefetchExact(d: Dev, origin: Image, disk: seq<Sector>, num: int)
    requires Matches(d, origin, disk, Idle) && 0 <= num < |origin| && Sized(d)
    ensures Matches(PrefetchOne(d, num), origin, disk, Idle) <==> (num != d.cur || IndexOf(d.blocks, num) >= 0)
  {
    var i := IndexOf(d.blocks, num);
    if i >= 0 { PrefetchHit(d, origin, disk, i); } else { PrefetchMiss(d, origin, disk, num); }
  }

  // ----- runs -----

  ghost predicate StepIs(d: Dev, origin: Image, e: Event, r: Dev, reply: Reply) {
    match e
    case Submit(_, _, _, _) => Sized(Prepare(d, e)) && (r, reply) == SubmitStep(d, e)
    case Arrive(num) =>
      && 0 <= num < |origin| && |origin[num]| == d.blockSize && IndexOf(d.blocks, num) >= 0 && Sized(d)
      && (r, reply) == ArriveStep(d, num, origin[num])
    case Prefetch(nums) => Sized(d) && (r, reply) == (PrefetchStep(d, nums), Quiet)
  }

  /** The client's record after an event: the disk changes when a write ends. */
  function Client(disk: seq<Sector>, p: Pending, e: Event, reply: Reply): (seq<Sector>, Pending) {
    match reply
    case Ret0 => if e.Submit? then (Apply(disk, RequestOf(e)), Idle) else (disk, p)
    case Ret1 => if e.Submit? then (disk, RequestOf(e)) else (disk, p)
    case Callback => (Apply(disk, p), Idle)
    case Quiet => (disk, p)
  }

  function ClientRun(disk: seq<Sector>, p: Pending, es: seq<Event>, rs: seq<Reply>): (seq<Sector>, Pending)
    requires |es| == |rs|
    decreases |es|
  {
    if es == [] then (disk, p)
    else var (disk1, p1) := Client(disk, p, es[0], rs[0]); ClientRun(disk1, p1, es[1..], rs[1..])
  }

  /** ds[i] steps to ds[i + 1] by a legal event es[i], answering rs[i]. */
  ghost predicate IsRun(ds: seq<Dev>, origin: Image, es: seq<Event>, rs: seq<Reply>) {
    && |ds| == |es| + 1 && |rs| == |es|
    && forall i :: 0 <= i < |es| ==> Legal(ds[i], origin, es[i]) && StepIs(ds[i], origin, es[i], ds[i + 1], rs[i])
  }

  function Active(p: Pending): nat { if p.Busy? then 1 else 0 }

  /** One event: the device keeps standing for the client's record, a completed read has
      delivered its sectors, and a reply is a promise (Ret1) or the end of one (Callback). */
  lemma StepCorrect(d: Dev, origin: Image, disk: seq<Sector>, p: Pending, e: Event, r: Dev, reply: Reply)
    requires Matches(d, origin, disk, p) && Legal(d, origin, e) && StepIs(d, origin, e, r, reply)
    ensures var (disk1, p1) := Client(disk, p, e, reply);
            && Matches(r, origin, disk1, p1)
            && Active(p1) + (if reply == Callback then 1 else 0) == Active(p) + (if reply == Ret1 then 1 else 0)
    ensures reply == Ret0 ==> Finished(r, origin, disk, RequestOf(e))
    ensures reply == Callback ==> Finished(r, origin, disk, p)
    ensures e.Submit? <==> reply == Ret0 || reply == Ret1
  {
    match e
    case Submit(_, _, _, _) => SubmitCorrect(d, origin, disk, e);
    case Arrive(num) => ArriveCorrect(d, origin, disk, p, num);
    case Prefetch(nums) => PrefetchCorrect(d, origin, disk, nums);
  }

  function Count(rs: seq<Reply>, r: Reply): nat {
    if rs == [] then 0 else (if rs[0] == r then 1 else 0) + Count(rs[1..], r)
  }

  /** Over every run the device is the flat array with the completed writes applied, and
      every promised callback has come exactly once, but for the request still waiting. */
  lemma {:induction false} RunCorrect(ds: seq<Dev>, origin: Image, es: seq<Event>, rs: seq<Reply>, disk: seq<Sector>, p: Pending)
    requires IsRun(ds, origin, es, rs) && Matches(ds[0], origin, disk, p)
    ensures var (disk1, p1) := ClientRun(disk, p, es, rs);
            && Matches(ds[|es|], origin, disk1, p1)
            && Count(rs, Callback) + Active(p1) == Count(rs, Ret1) + Active(p)
    decreases |es|
  {
    if es != [] {
      StepCorrect(ds[0], origin, disk, p, es[0], ds[1], rs[0]);
      var (disk1, p1) := Client(disk, p, es[0], rs[0]);
      assert IsRun(ds[1..], origin, es[1..], rs[1..]) by {
        forall i | 0 <= i < |es[1..]|
          ensures Legal(ds[1..][i], origin, es[1..][i]) && StepIs(ds[1..][i], origin, es[1..][i], ds[1..][i + 1], rs[1..][i])
        {
          assert Legal(ds[i + 1], origin, es[i + 1]) && StepIs(ds[i + 1], origin, es[i + 1], ds[i + 2], rs[i + 1]);
        }
      }
      RunCorrect(ds[1..], origin, es[1..], rs[1..], disk1, p1);
    }
  }

  /** A fresh device stands for the image on the server. */
  lemma FreshMatches(d: Dev, origin: Image)
    requires Fresh(d) && Geometry(d) && ImageOf(origin, d) && d.nbSectors >= 0
    ensures CacheInv(d, origin) && Matches(d, origin, Flat(d, origin), Idle)
    ensures forall x :: 0 <= x < d.nbSectors ==>
              0 <= x / d.blockSize < |origin| && Flat(d, origin)[x] == origin[x / d.blockSize][x % d.blockSize]
  {
    forall x | 0 <= x < d.nbSectors ensures 0 <= x / d.blockSize < |origin| { BlockInRange(d, origin, x); }
  }

  /** So every run from a fresh device ends in the image with the completed writes applied,
      and calls back once for each request told to wait, but for the one still waiting. */
  lemma FreshRunCorrect(ds: seq<Dev>, origin: Image, es: seq<Event>, rs: seq<Reply>)
    requires IsRun(ds, origin, es, rs) && Fresh(ds[0]) && Geometry(ds[0]) && ImageOf(origin, ds[0]) && ds[0].nbSectors >= 0
    ensures CacheInv(ds[0], origin)
    ensures var (disk, p) := ClientRun(Flat(ds[0], origin), Idle, es, rs);
            Matches(ds[|es|], origin, disk, p) && Count(rs, Callback) + Active(p) == Count(rs, Ret1)
  {
    FreshMatches(ds[0], origin);
    RunCorrect(ds, origin, es, rs, Flat(ds[0], origin), Idle);
  }

  // ----- no request is forgotten -----

  lemma {:induction false} IndexGrows(d: Dev)
    requires Sized(d)
    ensures d.index <= Rw(d).0.index
    decreases d.count - d.index, if Cluster(d) in d.clusters then 0 else 1
  {
    if d.index < d.count {
      if Cluster(d) in d.clusters {
        IndexGrows(ClusterStep(d));
      } else {
        var i := IndexOf(d.blocks, d.sectorNum / d.blockSize);
        if i >= 0 && d.blocks[i].loaded { IndexGrows(ServeBlock(d, i)); }
      }
    }
  }

  lemma LoadedAdvances(d: Dev)
    requires Sized(d) && d.index < d.count && Cluster(d) !in d.clusters
    requires var i := IndexOf(d.blocks, d.sectorNum / d.blockSize); i >= 0 && d.blocks[i].loaded
    ensures d.index < Rw(d).0.index
  {
    var d1 := ServeBlock(d, IndexOf(d.blocks, d.sectorNum / d.blockSize));
    if d1.index == d.index { IndexGrows(ClusterStep(d1)); } else { IndexGrows(d1); }
  }

  /** A waiting request always has the download of its block under way, and the arrival of
      that block calls back or moves at least one more sector. */
  lemma WaitingIsServed(d: Dev, origin: Image, disk: seq<Sector>, p: Pending)
    requires Matches(d, origin, disk, p) && p.Busy?
    ensures Legal(d, origin, Arrive(d.cur))
    ensures 0 <= d.cur < |origin| && |origin[d.cur]| == d.blockSize && IndexOf(d.blocks, d.cur) >= 0 && Sized(d)
    ensures var (r, reply) := ArriveStep(d, d.cur, origin[d.cur]);
            d.index < r.index && (reply == Callback || Matches(r, origin, disk, p))
  {
    ArriveCorrect(d, origin, disk, p, d.cur);
    LoadedKeeps(d, origin, d.cur);
    var d1 := Loaded(d, d.cur, origin[d.cur]);
    var i := IndexOf(d.blocks, d.cur);
    assert d1.blocks[i] == Block(d.cur, true, origin[d.cur]);
    var j := IndexOf(d1.blocks, d.cur);
    assert j == i;
    LoadedAdvances(d1);
  }

  // ----- what reads deliver -----

  /** With blocks no larger than a cluster no sector is stale. */
  lemma NoStaleSmallBlocks(d: Dev, s: int, x: int)
    requires d.blockSize == 8
    ensures !Stale(d, s, x)
  {
  }

  /** A read delivers the flat array whatever has been written, exactly when no sector of it
      is stale. */
  lemma ReadExact(d: Dev, origin: Image, s: int, n: int)
    requires CacheInv(d, origin) && 0 <= s && 0 <= n && s + n <= d.nbSectors
    ensures (forall e: Dev :: CacheInv(e, origin) && e == d.(clusters := e.clusters) && e.clusters.Keys == d.clusters.Keys ==>
               forall x :: s <= x < s + n ==> Served(e, origin, s, x) == FlatAt(e, origin, x))
            <==> (forall x :: s <= x < s + n ==> !Stale(d, s, x))
  {
    if x :| s <= x < s + n && Stale(d, s, x) {
      var k := x / 8;
      BlockInRange(d, origin, x);
      var other := [0] + origin[x / d.blockSize][x % d.blockSize];
      var e := d.(clusters := d.clusters[k := seq(8, _ => other)]);
      assert e.clusters.Keys == d.clusters.Keys;
      assert CacheInv(e, origin);
      assert Stale(e, s, x);
      assert FlatAt(e, origin, x) == other;
      assert Served(e, origin, s, x) != FlatAt(e, origin, x);
    } else {
      forall e: Dev, x | CacheInv(e, origin) && e == d.(clusters := e.clusters) && e.clusters.Keys == d.clusters.Keys && s <= x < s + n
        ensures Served(e, origin, s, x) == FlatAt(e, origin, x)
      {
        assert !Stale(d, s, x);
        assert forall k :: k in e.clusters <==> k in d.clusters.Keys;
      }
    }
  }
}
