/** Descriptor lists in the extended encoding: each descriptor holds the 64-bit address of the next as two
    words. Seen through `LinksOf`, which joins them, the operations are those of the standard encoding. */
module ExtPrefetcher {
  import opened Basics
  import opened DescriptorRings
  import opened PrefetcherDevice

  /** What a descriptor transfers. */
  datatype Transfer = Transfer(readHigh: Word, readLow: Word, writeHigh: Word, writeLow: Word, length: nat,
                               sequenceNumber: nat, readBurst: nat, writeBurst: nat,
                               readStride: nat, writeStride: nat)

  class Descriptor {
    const addr: Addr
    var transfer: Transfer
    var nextDescPtrLow: Word
    var nextDescPtrHigh: Word
    var control: bv32

    constructor (a: Addr, t: Transfer)
      ensures addr == a
    {
      addr, transfer := a, t;
    }
  }

  /** What lives at each address; a cast of an address to a pointer is a lookup here. */
  type Memory = map<Addr, Descriptor>

  ghost predicate MemoryOk(mem: Memory) {
    forall a :: a in mem ==> mem[a].addr == a && 0 < a < WORD * WORD
  }

  predicate Stored(mem: Memory, d: Descriptor) {
    d.addr in mem && mem[d.addr] == d
  }

  ghost function LinksOf(mem: Memory): Links
    reads mem.Values
  {
    map a | a in mem :: Join(mem[a].nextDescPtrLow, mem[a].nextDescPtrHigh)
  }

  ghost function ControlsOf(mem: Memory): Controls
    reads mem.Values
  {
    map a | a in mem :: mem[a].control
  }

  ghost function TransfersOf(mem: Memory): map<Addr, Transfer>
    reads mem.Values
  {
    map a | a in mem :: mem[a].transfer
  }

  function AddrOf(d: Descriptor?): Addr {
    if d == null then 0 else d.addr
  }

  /** The test `next_desc_ptr_low == u32[0] && next_desc_ptr_high == u32[1]`. */
  predicate PointsTo(d: Descriptor, a: Addr)
    requires a < WORD * WORD
    reads d
    ensures PointsTo(d, a) <==> Join(d.nextDescPtrLow, d.nextDescPtrHigh) == a
    ensures PointsTo(d, a) <==> d.nextDescPtrLow + 0x1_0000_0000 * d.nextDescPtrHigh == a
  {
    SplitJoin(a, d.nextDescPtrLow, d.nextDescPtrHigh);
    d.nextDescPtrLow == Low(a) && d.nextDescPtrHigh == High(a)
  }

  lemma FieldsOf(mem: Memory, d: Descriptor)
    requires Stored(mem, d)
    ensures d.addr in LinksOf(mem) && LinksOf(mem)[d.addr] == Join(d.nextDescPtrLow, d.nextDescPtrHigh)
    ensures d.addr in ControlsOf(mem) && ControlsOf(mem)[d.addr] == d.control
    ensures LinksOf(mem).Keys == mem.Keys && ControlsOf(mem).Keys == mem.Keys
  {
  }

  /** Fills in a descriptor: it points to itself, GO is set and software owns it. */
  method Construct(dev: Device, d: Descriptor, t: Transfer, control: bv32) returns (rc: int)
    requires d.addr < WORD * WORD
    modifies d
    ensures rc == if dev.maxByte < t.length || dev.maxStride < t.readStride || dev.maxStride < t.writeStride
                     || dev.enhancedFeatures != 1 then -EINVAL else 0
    ensures rc != 0 ==> unchanged(d)
    ensures rc == 0 ==> d.nextDescPtrLow + 0x1_0000_0000 * d.nextDescPtrHigh == d.addr
    ensures rc == 0 ==> PointsTo(d, d.addr) && d.transfer == t && ReadyWord(control, d.control, false)
  {
    hide ReadyWord, ConstructedWord;
    if dev.maxByte < t.length || dev.maxStride < t.readStride || dev.maxStride < t.writeStride
       || dev.enhancedFeatures != 1 {
      return -EINVAL;
    }
    d.transfer := t;
    d.nextDescPtrLow := Low(d.addr);
    d.nextDescPtrHigh := High(d.addr);
    d.control := ConstructedWord(control);
    return 0;
  }

  /** Makes a descriptor point elsewhere, half by half. */
  method SetNext(ghost mem: Memory, d: Descriptor, a: Addr)
    requires MemoryOk(mem) && Stored(mem, d) && a < WORD * WORD
    modifies d`nextDescPtrLow, d`nextDescPtrHigh
    ensures d.nextDescPtrLow + 0x1_0000_0000 * d.nextDescPtrHigh == a
    ensures LinksOf(mem) == old(LinksOf(mem))[d.addr := a]
    ensures ControlsOf(mem) == old(ControlsOf(mem)) && TransfersOf(mem) == old(TransfersOf(mem))
  {
    hide Join, Low, High;
    d.nextDescPtrLow := Low(a);
    d.nextDescPtrHigh := High(a);
    SplitJoin(a, d.nextDescPtrLow, d.nextDescPtrHigh);
  }

  /** Appends `d` to the list at `root`, which represents `s`: on the joined links, exactly what the standard
      encoding does. */
  method AddToList(mem: Memory, root: Descriptor?, d: Descriptor?, ghost s: seq<Addr>)
    returns (rc: int, root': Descriptor?)
    requires MemoryOk(mem)
    requires (root != null ==> Stored(mem, root)) && (d != null ==> Stored(mem, d))
    requires IsList(LinksOf(mem), AddrOf(root), s)
    modifies mem.Values
    ensures rc == if d == null || old(LinksOf(mem))[d.addr] != d.addr || root == d then -EINVAL else 0
    ensures rc != 0 ==> root' == root && LinksOf(mem) == old(LinksOf(mem))
    ensures rc == 0 ==> && root' == (if root == null then d else root)
                        && LinksOf(mem) == AppendLinks(old(LinksOf(mem)), s, d.addr)
                        && IsList(LinksOf(mem), AddrOf(root'), s + [d.addr])
    ensures d != null && d.addr in s ==> rc != 0
    ensures ControlsOf(mem) == old(ControlsOf(mem)) && TransfersOf(mem) == old(TransfersOf(mem))
  {
    hide Join, Low, High, PointsTo, ControlsOf, TransfersOf;
    root' := root;
    if d == null {
      return -EINVAL, root;
    }
    if !PointsTo(d, d.addr) {
      return -EINVAL, root;
    }
    ghost var links := LinksOf(mem);
    if root == null {
      AppendGivesRing(links, s, d.addr);
      return 0, d;
    }
    if root == d {
      return -EINVAL, root;
    }
    SelfLinkedIsOutside(links, s, d.addr);
    AppendGivesRing(links, s, d.addr);
    var last: Descriptor := root;
    ghost var k := 0;
    while !PointsTo(last, root.addr)
      invariant 0 <= k < |s| && last.addr == s[k] && Stored(mem, last)
      decreases |s| - k
    {
      assert links[s[k]] == Successor(s, k);
      if PointsTo(last, d.addr) {
        assert false;
        return -EINVAL, root;
      }
      last := mem[Join(last.nextDescPtrLow, last.nextDescPtrHigh)];
      k := k + 1;
    }
    assert links[s[k]] == Successor(s, k);
    SetNext(mem, last, d.addr);
    SetNext(mem, d, root.addr);
    assert LinksOf(mem) == AppendLinks(links, s, d.addr);
    return 0, root;
  }

  method SetControl(ghost mem: Memory, d: Descriptor, c: bv32)
    requires MemoryOk(mem) && Stored(mem, d)
    modifies d`control
    ensures LinksOf(mem) == old(LinksOf(mem)) && TransfersOf(mem) == old(TransfersOf(mem))
    ensures ControlsOf(mem) == old(ControlsOf(mem))[d.addr := c]
  {
    d.control := c;
  }

  /** The ownership pass, as in the standard encoding. */
  method SetOwnByHw(mem: Memory, list: Descriptor?, lastOwnedBySw: bool, ghost s: seq<Addr>) returns (rc: int)
    requires MemoryOk(mem) && (list != null ==> Stored(mem, list))
    requires IsList(LinksOf(mem), AddrOf(list), s)
    modifies mem.Values
    ensures rc == if list == null then -EINVAL else 0
    ensures LinksOf(mem) == old(LinksOf(mem)) && TransfersOf(mem) == old(TransfersOf(mem))
    ensures OwnershipPass(old(ControlsOf(mem)), ControlsOf(mem), s, |s|, lastOwnedBySw)
  {
    hide OnlyOwnership, OwnershipPass, WithOwner, LinksOf, ControlsOf, TransfersOf, Join, Low, High, PointsTo;
    if list == null {
      PassStarts(ControlsOf(mem), s, lastOwnedBySw);
      return -EINVAL;
    }
    ghost var controls := ControlsOf(mem);
    PassStarts(controls, s, lastOwnedBySw);
    var last: Descriptor := list;
    FieldsOf(mem, last);
    ghost var k := 0;
    while !PointsTo(last, list.addr)
      invariant 0 <= k < |s| && last.addr == s[k] && Stored(mem, last)
      invariant LinksOf(mem) == old(LinksOf(mem)) && TransfersOf(mem) == old(TransfersOf(mem))
      invariant OwnershipPass(controls, ControlsOf(mem), s, k, lastOwnedBySw)
      decreases |s| - k
    {
      assert LinksOf(mem)[s[k]] == Successor(s, k);
      FieldsOf(mem, last);
      assert s[k + 1] in LinksOf(mem);
      OwnershipStep(controls, ControlsOf(mem), s, k, lastOwnedBySw);
      SetControl(mem, last, WithOwner(last.control, true));
      last := mem[Join(last.nextDescPtrLow, last.nextDescPtrHigh)];
      FieldsOf(mem, last);
      k := k + 1;
    }
    assert LinksOf(mem)[s[k]] == Successor(s, k);
    FieldsOf(mem, last);
    OwnershipStep(controls, ControlsOf(mem), s, k, lastOwnedBySw);
    if lastOwnedBySw {
      SetControl(mem, last, WithOwner(last.control, false));
    } else {
      SetControl(mem, last, WithOwner(last.control, true));
    }
    return 0;
  }

  /** Ownership pass, then the start of the prefetcher on the list. */
  method StartWithList(dev: Device, mem: Memory, list: Descriptor?, parkMode: bool, pollEn: bool,
                       lastOwnedBySw: bool, ghost s: seq<Addr>)
    returns (rc: int)
    requires MemoryOk(mem) && (list != null ==> Stored(mem, list))
    requires IsList(LinksOf(mem), AddrOf(list), s)
    modifies mem.Values, dev
    ensures rc == if list == null then -EINVAL else if RunBit(old(dev.prefetcherControl)) then -EBUSY else 0
    ensures LinksOf(mem) == old(LinksOf(mem)) && TransfersOf(mem) == old(TransfersOf(mem))
    ensures OwnershipPass(old(ControlsOf(mem)), ControlsOf(mem), s, |s|, lastOwnedBySw)
    ensures rc != 0 ==> unchanged(dev)
    ensures rc == 0 ==> && dev.nextLow + 0x1_0000_0000 * dev.nextHigh == AddrOf(list)
                        && Join(dev.nextLow, dev.nextHigh) == AddrOf(list)
                        && old(dev.writes) <= dev.writes
                        && RunsLast(dev.writes[|old(dev.writes)|..], AddrOf(list))
                        && Running(old(dev.prefetcherControl), dev.prefetcherControl, dev.callback, parkMode, pollEn)
                        && Dispatching(dev.control, dev.csrControl, dev.callback)
  {
    hide Running, Dispatching, RunsLast, OwnershipPass, OnlyOwnership;
    rc := SetOwnByHw(mem, list, lastOwnedBySw, s);
    if rc != 0 {
      return -EINVAL;
    }
    rc := dev.Start(list.addr, parkMode, pollEn);
  }

  // ------------------------------------------------------------------------- from requests to a start

  function Addrs(ds: seq<Descriptor>): (s: seq<Addr>)
    ensures |s| == |ds| && forall i :: 0 <= i < |ds| ==> s[i] == ds[i].addr
  {
    seq(|ds|, i requires 0 <= i < |ds| => ds[i].addr)
  }

  ghost predicate AllStored(mem: Memory, ds: seq<Descriptor>) {
    MemoryOk(mem) && Distinct(Addrs(ds)) && forall d :: d in ds ==> Stored(mem, d)
  }

  lemma AllInMaps(mem: Memory, ds: seq<Descriptor>)
    requires AllStored(mem, ds)
    ensures forall a :: a in Addrs(ds) ==> a in LinksOf(mem) && a in ControlsOf(mem) && a in TransfersOf(mem)
    ensures forall d :: d in ds ==> d in mem.Values
  {
    forall d | d in ds
      ensures d in mem.Values
    {
      assert Stored(mem, d);
    }
    forall a | a in Addrs(ds)
      ensures a in mem
    {
      var i :| 0 <= i < |ds| && Addrs(ds)[i] == a;
      assert Stored(mem, ds[i]);
    }
  }

  /** What the device takes. */
  predicate Fits(dev: Device, t: Transfer) {
    && t.length <= dev.maxByte && t.readStride <= dev.maxStride && t.writeStride <= dev.maxStride
    && dev.enhancedFeatures == 1
  }

  predicate Acceptable(dev: Device, reqs: seq<Request<Transfer>>) {
    forall i :: 0 <= i < |reqs| ==> Fits(dev, reqs[i].transfer)
  }

  /** Constructs one descriptor in memory for a request. */
  method ConstructRequest(dev: Device, ghost mem: Memory, d: Descriptor, req: Request<Transfer>) returns (rc: int)
    requires MemoryOk(mem) && Stored(mem, d)
    modifies d
    ensures rc == if Fits(dev, req.transfer) then 0 else -EINVAL
    ensures rc != 0 ==> && LinksOf(mem) == old(LinksOf(mem)) && ControlsOf(mem) == old(ControlsOf(mem))
                        && TransfersOf(mem) == old(TransfersOf(mem))
    ensures rc == 0 ==> && LinksOf(mem) == old(LinksOf(mem))[d.addr := d.addr]
                        && TransfersOf(mem) == old(TransfersOf(mem))[d.addr := req.transfer]
                        && ControlsOf(mem) == old(ControlsOf(mem))[d.addr := d.control]
                        && ReadyWord(req.control, d.control, false)
  {
    hide ReadyWord, Join, Low, High;
    rc := Construct(dev, d, req.transfer, req.control);
    if rc == 0 {
      assert LinksOf(mem) == old(LinksOf(mem))[d.addr := d.addr];
      assert TransfersOf(mem) == old(TransfersOf(mem))[d.addr := req.transfer];
      assert ControlsOf(mem) == old(ControlsOf(mem))[d.addr := d.control];
    }
  }

  /** Constructs every descriptor; stops at a request the device cannot take. */
  method ConstructAll(dev: Device, mem: Memory, ds: seq<Descriptor>, reqs: seq<Request<Transfer>>,
                      ghost lastOwnedBySw: bool)
    returns (rc: int)
    requires |ds| == |reqs| && AllStored(mem, ds)
    modifies ds
    ensures rc == if Acceptable(dev, reqs) then 0 else -EINVAL
    ensures exists n: nat :: n <= |ds| && (rc == 0 ==> n == |ds|)
              && Constructed(old(LinksOf(mem)), old(ControlsOf(mem)), old(TransfersOf(mem)),
                             LinksOf(mem), ControlsOf(mem), TransfersOf(mem), Addrs(ds), reqs, n, lastOwnedBySw)
  {
    hide ReadyWord, LinksOf, ControlsOf, TransfersOf, MemoryOk, Constructed, Fits;
    ghost var s, links, controls, transfers := Addrs(ds), LinksOf(mem), ControlsOf(mem), TransfersOf(mem);
    AllInMaps(mem, ds);
    NothingConstructed(links, controls, transfers, s, reqs, lastOwnedBySw);
    for i := 0 to |ds|
      invariant forall j :: 0 <= j < i ==> Fits(dev, reqs[j].transfer)
      invariant Constructed(links, controls, transfers, LinksOf(mem), ControlsOf(mem), TransfersOf(mem), s, reqs, i,
                            lastOwnedBySw)
    {
      ghost var links', controls', transfers' := LinksOf(mem), ControlsOf(mem), TransfersOf(mem);
      assert s[i] in s;
      rc := ConstructRequest(dev, mem, ds[i], reqs[i]);
      if rc != 0 {
        return;
      }
      ConstructedNext(links, controls, transfers, links', controls', transfers', s, reqs, i, lastOwnedBySw,
                      ds[i].control);
    }
    rc := 0;
  }

  /** Appends every descriptor in turn to an empty list. */
  method AddAll(mem: Memory, ds: seq<Descriptor>) returns (root: Descriptor?)
    requires AllStored(mem, ds) && SelfLinked(LinksOf(mem), Addrs(ds), 0)
    modifies mem.Values
    ensures root == (if ds == [] then null else ds[0])
    ensures IsList(LinksOf(mem), AddrOf(root), Addrs(ds))
    ensures SameOutside(old(LinksOf(mem)), LinksOf(mem), Addrs(ds))
    ensures ControlsOf(mem) == old(ControlsOf(mem)) && TransfersOf(mem) == old(TransfersOf(mem))
  {
    hide LinksOf, ControlsOf, TransfersOf, AppendLinks, SameOutside, IsRing, SelfLinked;
    root := null;
    ghost var s, links := Addrs(ds), LinksOf(mem);
    AllInMaps(mem, ds);
    AllOutside(links, s);
    for i := 0 to |ds|
      invariant root == (if i == 0 then null else ds[0])
      invariant IsList(LinksOf(mem), AddrOf(root), s[..i])
      invariant SelfLinked(LinksOf(mem), s, i) && SameOutside(links, LinksOf(mem), s)
      invariant ControlsOf(mem) == old(ControlsOf(mem)) && TransfersOf(mem) == old(TransfersOf(mem))
    {
      FieldsOf(mem, ds[i]);
      SelfLinkedAt(LinksOf(mem), s, i);
      AppendKeepsSelfLinks(LinksOf(mem), s, i);
      AppendKeepsOutside(links, LinksOf(mem), s, i);
      assert i > 0 ==> s[0] != s[i];
      var rc;
      rc, root := AddToList(mem, root, ds[i], s[..i]);
      assert s[..i + 1] == s[..i] + [s[i]];
    }
    assert s[..|ds|] == s;
  }

  /** From k requests to a running prefetcher, as in the standard encoding, with the links as 64-bit addresses. */
  method BuildAndStart(dev: Device, mem: Memory, ds: seq<Descriptor>, reqs: seq<Request<Transfer>>,
                       parkMode: bool, pollEn: bool, lastOwnedBySw: bool)
    returns (rc: int)
    requires |ds| == |reqs| && AllStored(mem, ds)
    modifies mem.Values, dev
    ensures rc == if !Acceptable(dev, reqs) || ds == [] then -EINVAL
                  else if RunBit(old(dev.prefetcherControl)) then -EBUSY else 0
    ensures rc != 0 ==> unchanged(dev)
    ensures && SameOutside(old(LinksOf(mem)), LinksOf(mem), Addrs(ds))
            && SameOutside(old(ControlsOf(mem)), ControlsOf(mem), Addrs(ds))
            && SameOutside(old(TransfersOf(mem)), TransfersOf(mem), Addrs(ds))
    ensures rc == 0 ==> dev.nextLow + 0x1_0000_0000 * dev.nextHigh == ds[0].addr
    ensures rc == 0 ==>
              var root := Join(dev.nextLow, dev.nextHigh);
              && (forall k: nat :: k < |ds| ==> Follow(LinksOf(mem), root, k) == ds[k].addr)
              && Follow(LinksOf(mem), root, |ds|) == root
              && Carries(ControlsOf(mem), TransfersOf(mem), Addrs(ds), reqs, |ds|, true, lastOwnedBySw)
              && old(dev.writes) <= dev.writes
              && RunsLast(dev.writes[|old(dev.writes)|..], root)
              && Running(old(dev.prefetcherControl), dev.prefetcherControl, dev.callback, parkMode, pollEn)
  {
    hide ReadyWord, Carries, OwnershipPass, RunsLast, Running, RunBit, Dispatching, SameOutside, Acceptable;
    hide LinksOf, ControlsOf, TransfersOf;
    AllInMaps(mem, ds);
    ghost var s, links0, controls0 := Addrs(ds), LinksOf(mem), ControlsOf(mem);
    rc := ConstructAll(dev, mem, ds, reqs, lastOwnedBySw);
    if rc != 0 {
      return;
    }
    ghost var links, controls, transfers := LinksOf(mem), ControlsOf(mem), TransfersOf(mem);
    var root := AddAll(mem, ds);
    SameOutsideTwice(links0, links, LinksOf(mem), s);
    rc := StartWithList(dev, mem, root, parkMode, pollEn, lastOwnedBySw, s);
    PassStartsAll(controls, ControlsOf(mem), transfers, s, reqs, lastOwnedBySw);
    SameOutsideTwice(controls0, controls, ControlsOf(mem), s);
    if rc == 0 {
      forall k: nat | k <= |ds|
        ensures Follow(LinksOf(mem), root.addr, k) == if k < |ds| then ds[k].addr else root.addr
      {
        FollowVisitsRing(LinksOf(mem), s, k);
      }
    }
  }
}
