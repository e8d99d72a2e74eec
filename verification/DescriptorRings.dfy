/** Circular descriptor lists as values: `links` gives the address each descriptor points to, and a ring is the
    sequence of addresses visited from its root until the root comes round again. */
module DescriptorRings {

  type Addr = nat
  type Links = map<Addr, Addr>

  /** The successor of position i in ring s. */
  function Successor(s: seq<Addr>, i: nat): Addr
    requires i < |s|
  {
    if i + 1 < |s| then s[i + 1] else s[0]
  }

  ghost predicate Distinct(s: seq<Addr>) {
    forall i, j :: 0 <= i < j < |s| ==> s[i] != s[j]
  }

  ghost predicate IsRing(links: Links, s: seq<Addr>) {
    && s != [] && Distinct(s)
    && forall i :: 0 <= i < |s| ==> s[i] in links && links[s[i]] == Successor(s, i)
  }

  /** The list that `root` (0 for NULL) denotes: the empty list, or a ring starting there. */
  ghost predicate IsList(links: Links, root: Addr, s: seq<Addr>) {
    if root == 0 then s == [] else IsRing(links, s) && s[0] == root
  }

  /** What appending d to list s does to the links: nothing for an empty list, whose new root already
      points to itself; otherwise the last element gets d as successor, and d the root. */
  function AppendLinks(links: Links, s: seq<Addr>, d: Addr): Links {
    if s == [] then links else links[s[|s| - 1] := d][d := s[0]]
  }

  lemma AppendGivesRing(links: Links, s: seq<Addr>, d: Addr)
    requires d in links && links[d] == d && d !in s
    requires s != [] ==> IsRing(links, s)
    ensures IsRing(AppendLinks(links, s, d), s + [d])
  {
    var t, links' := s + [d], AppendLinks(links, s, d);
    forall i | 0 <= i < |t|
      ensures t[i] in links' && links'[t[i]] == Successor(t, i)
    {
    }
  }

  /** A descriptor that points to itself and is not the root is in no ring: the two tests made before the
      walk already reject every duplicate. */
  lemma SelfLinkedIsOutside(links: Links, s: seq<Addr>, d: Addr)
    requires IsRing(links, s) && d in links && links[d] == d && d != s[0]
    ensures d !in s
  {
    forall i | 0 <= i < |s|
      ensures s[i] != d
    {
      assert links[s[i]] == Successor(s, i);
    }
  }

  /** The descriptors of s from position i on still point to themselves. */
  ghost predicate SelfLinked(links: Links, s: seq<Addr>, i: nat) {
    forall j :: i <= j < |s| ==> s[j] in links && links[s[j]] == s[j]
  }

  lemma SelfLinkedAt(links: Links, s: seq<Addr>, i: nat)
    requires i < |s| && SelfLinked(links, s, i)
    ensures s[i] in links && links[s[i]] == s[i]
  {
  }

  lemma AppendKeepsSelfLinks(links: Links, s: seq<Addr>, i: nat)
    requires Distinct(s) && i < |s| && SelfLinked(links, s, i)
    ensures SelfLinked(AppendLinks(links, s[..i], s[i]), s, i + 1)
  {
  }

  /** The address reached from `root` by following k links. */
  ghost function Follow(links: Links, root: Addr, k: nat): Addr {
    if k == 0 then root
    else
      var a := Follow(links, root, k - 1);
      if a in links then links[a] else 0
  }

  /** Following links from the root visits the ring in order and comes back to the root. */
  lemma {:induction false} FollowVisitsRing(links: Links, s: seq<Addr>, k: nat)
    requires IsRing(links, s) && k <= |s|
    ensures Follow(links, s[0], k) == if k < |s| then s[k] else s[0]
  {
    if k > 0 {
      FollowVisitsRing(links, s, k - 1);
    }
  }

  /** So a root denotes at most one list. */
  lemma RingIsUnique(links: Links, s: seq<Addr>, t: seq<Addr>)
    requires IsRing(links, s) && IsRing(links, t) && s[0] == t[0]
    ensures s == t
  {
    var n := if |s| <= |t| then |s| else |t|;
    forall k | 0 <= k < n
      ensures s[k] == t[k]
    {
      FollowVisitsRing(links, s, k);
      FollowVisitsRing(links, t, k);
    }
    FollowVisitsRing(links, s, n);
    FollowVisitsRing(links, t, n);
  }

  // ------------------------------------------------------------------------- control words

  const OWN_BY_HW: bv32 := 0x4000_0000
  const OWN_BY_HW_CLR: bv32 := 0xBFFF_FFFF
  const GO: bv32 := 0x8000_0000

  /** The ownership bit that the pass gives position i of a ring of n. */
  predicate HardwareOwned(i: nat, n: nat, lastOwnedBySw: bool) {
    i + 1 < n || !lastOwnedBySw
  }

  /** `c'` is `c` with the ownership bit as given and every other bit as it was. */
  predicate OnlyOwnership(c: bv32, c': bv32, owned: bool) {
    c' & OWN_BY_HW == (if owned then OWN_BY_HW else 0) && c' & OWN_BY_HW_CLR == c & OWN_BY_HW_CLR
  }

  /** The ownership bit set or cleared with its mask. */
  function WithOwner(c: bv32, hardware: bool): bv32 {
    if hardware then c | OWN_BY_HW else c & OWN_BY_HW_CLR
  }

  lemma WithOwnerOnlyOwnership(c: bv32, hardware: bool)
    ensures OnlyOwnership(c, WithOwner(c, hardware), hardware)
  {
  }

  /** The bits a constructor and the ownership pass leave alone. */
  const REST: bv32 := 0x3FFF_FFFF

  /** `c'` is the requested word `c` with GO set, owned as given. */
  predicate ReadyWord(c: bv32, c': bv32, hardware: bool) {
    c' & GO == GO && c' & OWN_BY_HW == (if hardware then OWN_BY_HW else 0) && c' & REST == c & REST
  }

  /** The control word a constructor stores. */
  function ConstructedWord(c: bv32): (c': bv32)
    ensures ReadyWord(c, c', false)
  {
    (c & OWN_BY_HW_CLR) | GO
  }

  lemma OwnershipKeepsReady(c: bv32, c1: bv32, c2: bv32, hardware: bool)
    requires ReadyWord(c, c1, false) && OnlyOwnership(c1, c2, hardware)
    ensures ReadyWord(c, c2, hardware)
  {
  }

  /** Bit by bit: bit 31 is GO and bit 30 the owner. */
  lemma ReadyWordInBits(c: bv32, c': bv32, hardware: bool)
    ensures ReadyWord(c, c', hardware) ==>
              && c' & 0x8000_0000 == 0x8000_0000 && c' & 0x4000_0000 == (if hardware then 0x4000_0000 else 0)
              && c' & 0x3FFF_FFFF == c & 0x3FFF_FFFF
    ensures OnlyOwnership(c, c', hardware) ==>
              c' & 0x4000_0000 == (if hardware then 0x4000_0000 else 0) && c' & 0xBFFF_FFFF == c & 0xBFFF_FFFF
  {
  }

  type Controls = map<Addr, bv32>

  /** The ownership pass over ring s has dealt with its first k descriptors and with nothing else. */
  ghost predicate OwnershipPass(controls: Controls, controls': Controls, s: seq<Addr>, k: nat, lastOwnedBySw: bool)
    requires k <= |s|
  {
    && controls'.Keys == controls.Keys
    && (forall a :: a in controls && a !in s[..k] ==> controls'[a] == controls[a])
    && (forall i :: 0 <= i < k ==>
          s[i] in controls && OnlyOwnership(controls[s[i]], controls'[s[i]], HardwareOwned(i, |s|, lastOwnedBySw)))
  }

  /** A whole pass, bit by bit: the owner bit of every descriptor but the last is set, that of the last exactly if
      software does not keep it, and no other bit and no other word has changed. */
  lemma PassInBits(controls: Controls, controls': Controls, s: seq<Addr>, lastOwnedBySw: bool)
    requires OwnershipPass(controls, controls', s, |s|, lastOwnedBySw)
    ensures controls'.Keys == controls.Keys && forall a :: a in s ==> a in controls
    ensures forall i :: 0 <= i < |s| - 1 ==> controls'[s[i]] & 0x4000_0000 == 0x4000_0000
    ensures s != [] ==> controls'[s[|s| - 1]] & 0x4000_0000 == (if lastOwnedBySw then 0 else 0x4000_0000)
    ensures forall i :: 0 <= i < |s| ==> controls'[s[i]] & 0xBFFF_FFFF == controls[s[i]] & 0xBFFF_FFFF
    ensures forall a :: a in controls && a !in s ==> controls'[a] == controls[a]
  {
    hide OnlyOwnership;
    assert s[..|s|] == s;
    forall i | 0 <= i < |s|
      ensures s[i] in controls
      ensures controls'[s[i]] & 0x4000_0000 == (if i + 1 < |s| || !lastOwnedBySw then 0x4000_0000 else 0)
      ensures controls'[s[i]] & 0xBFFF_FFFF == controls[s[i]] & 0xBFFF_FFFF
    {
      ReadyWordInBits(controls[s[i]], controls'[s[i]], i + 1 < |s| || !lastOwnedBySw);
    }
  }

  lemma PassStarts(controls: Controls, s: seq<Addr>, lastOwnedBySw: bool)
    ensures OwnershipPass(controls, controls, s, 0, lastOwnedBySw)
  {
  }

  /** The pass moves on by setting or clearing the bit of its next descriptor. */
  lemma OwnershipStep(controls: Controls, controls': Controls, s: seq<Addr>, k: nat, lastOwnedBySw: bool)
    requires Distinct(s) && k < |s| && s[k] in controls
    requires OwnershipPass(controls, controls', s, k, lastOwnedBySw)
    ensures s[k] in controls'
    ensures var c := WithOwner(controls'[s[k]], HardwareOwned(k, |s|, lastOwnedBySw));
            OwnershipPass(controls, controls'[s[k] := c], s, k + 1, lastOwnedBySw)
  {
    hide OnlyOwnership, WithOwner;
    WithOwnerOnlyOwnership(controls[s[k]], HardwareOwned(k, |s|, lastOwnedBySw));
    assert s[..k + 1] == s[..k] + [s[k]];
    assert s[k] !in s[..k];
  }

  // ------------------------------------------------------------------------- from requests to a start

  /** The two maps agree on every address outside s. */
  ghost predicate SameOutside<V>(m: map<Addr, V>, m': map<Addr, V>, s: seq<Addr>) {
    m'.Keys == m.Keys && forall a :: a in m && a !in s ==> m'[a] == m[a]
  }

  lemma AllOutside<V>(m: map<Addr, V>, s: seq<Addr>)
    ensures SameOutside(m, m, s)
  {
  }

  lemma SameOutsideTwice<V>(m: map<Addr, V>, m1: map<Addr, V>, m2: map<Addr, V>, s: seq<Addr>)
    requires SameOutside(m, m1, s) && SameOutside(m1, m2, s)
    ensures SameOutside(m, m2, s)
  {
  }

  lemma AppendKeepsOutside(links: Links, links': Links, s: seq<Addr>, i: nat)
    requires i < |s| && SameOutside(links, links', s) && forall a :: a in s ==> a in links
    ensures SameOutside(links, AppendLinks(links', s[..i], s[i]), s)
  {
    if i > 0 {
      assert s[..i][|s[..i]| - 1] == s[i - 1] && s[i - 1] in s && s[i] in s;
    }
  }

  /** A descriptor as a caller asks for it: what it transfers, and its control word. */
  datatype Request<T> = Request(transfer: T, control: bv32)

  /** The first n descriptors of s carry their requests, owned by hardware or software. */
  ghost predicate Carries<T>(controls: Controls, transfers: map<Addr, T>, s: seq<Addr>, reqs: seq<Request<T>>,
                             n: nat, started: bool, lastOwnedBySw: bool)
    requires n <= |s| == |reqs|
  {
    forall i :: 0 <= i < n ==>
      && s[i] in controls && s[i] in transfers
      && ReadyWord(reqs[i].control, controls[s[i]], started && HardwareOwned(i, |s|, lastOwnedBySw))
      && transfers[s[i]] == reqs[i].transfer
  }

  lemma PassStartsAll<T>(c: Controls, c': Controls, transfers: map<Addr, T>, s: seq<Addr>, reqs: seq<Request<T>>,
                         lastOwnedBySw: bool)
    requires |s| == |reqs| && Carries(c, transfers, s, reqs, |s|, false, lastOwnedBySw)
    requires OwnershipPass(c, c', s, |s|, lastOwnedBySw)
    ensures Carries(c', transfers, s, reqs, |s|, true, lastOwnedBySw)
    ensures SameOutside(c, c', s)
  {
    hide ReadyWord, OnlyOwnership;
    assert s[..|s|] == s;
    forall i | 0 <= i < |s|
      ensures s[i] in c' && ReadyWord(reqs[i].control, c'[s[i]], HardwareOwned(i, |s|, lastOwnedBySw))
    {
      OwnershipKeepsReady(reqs[i].control, c[s[i]], c'[s[i]], HardwareOwned(i, |s|, lastOwnedBySw));
    }
  }

  /** What each descriptor of a started list carries, in plain terms. */
  lemma CarriesInBits<T>(controls: Controls, transfers: map<Addr, T>, s: seq<Addr>, reqs: seq<Request<T>>,
                         lastOwnedBySw: bool, i: nat)
    requires |s| == |reqs| && Carries(controls, transfers, s, reqs, |s|, true, lastOwnedBySw) && i < |s|
    ensures s[i] in controls && s[i] in transfers && transfers[s[i]] == reqs[i].transfer
    ensures controls[s[i]] & 0x8000_0000 == 0x8000_0000
    ensures controls[s[i]] & 0x4000_0000 == (if i + 1 < |s| || !lastOwnedBySw then 0x4000_0000 else 0)
    ensures controls[s[i]] & 0x3FFF_FFFF == reqs[i].control & 0x3FFF_FFFF
  {
    hide ReadyWord;
    ReadyWordInBits(reqs[i].control, controls[s[i]], i + 1 < |s| || !lastOwnedBySw);
  }

  /** The first n descriptors of s point to themselves. */
  ghost predicate SelfLinkedUpTo(links: Links, s: seq<Addr>, n: nat)
    requires n <= |s|
  {
    forall j :: 0 <= j < n ==> s[j] in links && links[s[j]] == s[j]
  }

  /** Memory as constructors leave it: the first n descriptors constructed for their requests, and nothing outside
      s touched. */
  ghost predicate Constructed<T>(links: Links, controls: Controls, transfers: map<Addr, T>,
                                 links': Links, controls': Controls, transfers': map<Addr, T>,
                                 s: seq<Addr>, reqs: seq<Request<T>>, n: nat, lastOwnedBySw: bool)
    requires n <= |s| == |reqs|
  {
    && Carries(controls', transfers', s, reqs, n, false, lastOwnedBySw) && SelfLinkedUpTo(links', s, n)
    && SameOutside(links, links', s) && SameOutside(controls, controls', s) && SameOutside(transfers, transfers', s)
  }

  /** Constructing the next descriptor. */
  lemma ConstructedNext<T>(links: Links, controls: Controls, transfers: map<Addr, T>,
                           links': Links, controls': Controls, transfers': map<Addr, T>,
                           s: seq<Addr>, reqs: seq<Request<T>>, n: nat, lastOwnedBySw: bool, c: bv32)
    requires n < |s| == |reqs| && Distinct(s)
    requires s[n] in links && s[n] in controls && s[n] in transfers
    requires Constructed(links, controls, transfers, links', controls', transfers', s, reqs, n, lastOwnedBySw)
    requires ReadyWord(reqs[n].control, c, false)
    ensures Constructed(links, controls, transfers, links'[s[n] := s[n]], controls'[s[n] := c],
                        transfers'[s[n] := reqs[n].transfer], s, reqs, n + 1, lastOwnedBySw)
  {
    hide ReadyWord, SameOutside;
    UpdateInside(links, links', s, n, s[n]);
    UpdateInside(controls, controls', s, n, c);
    UpdateInside(transfers, transfers', s, n, reqs[n].transfer);
  }

  lemma NothingConstructed<T>(links: Links, controls: Controls, transfers: map<Addr, T>, s: seq<Addr>,
                              reqs: seq<Request<T>>, lastOwnedBySw: bool)
    requires |s| == |reqs|
    ensures Constructed(links, controls, transfers, links, controls, transfers, s, reqs, 0, lastOwnedBySw)
  {
  }

  lemma UpdateInside<V>(m: map<Addr, V>, m': map<Addr, V>, s: seq<Addr>, n: nat, v: V)
    requires n < |s| && s[n] in m && SameOutside(m, m', s)
    ensures SameOutside(m, m'[s[n] := v], s)
  {
    assert s[n] in s;
  }
}
