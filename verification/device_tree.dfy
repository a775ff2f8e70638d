/** The device tree (device.py): every device keeps an ordered, duplicate-free list of
    children and a back-link to its parent; after each add or remove a device's size is
    recomputed as the sum of its children's sizes, and the recomputation climbs to the
    parent. Devices live in an arena indexed by `DeviceId`; the parent link is an index,
    not a second owner. */
module DeviceTree {
  import opened Error
  import opened Seqs
  import opened Device
  import opened Byte
  import Disk

  type DeviceId = nat

  /** The concrete device classes: `RaidX`, `Lun` and `FileDisk`. */
  datatype Kind = RaidDevice | LunDevice | DiskDevice(disk: Disk.FileDisk)

  /** One device record: `_parent`, `_children` and `_size`. For a disk, `size` holds what
      its `size` property reports, the length of its backing file. */
  datatype Node = Node(kind: Kind, parent: Option<DeviceId>, children: seq<DeviceId>, size: nat)

  ghost predicate AllIn(ns: map<DeviceId, Node>, ids: seq<DeviceId>) {
    forall i :: 0 <= i < |ids| ==> ids[i] in ns
  }

  /** The sum of the sizes of `ids`, accumulated from the left as `update_size` does. */
  ghost function SizeSum(ns: map<DeviceId, Node>, ids: seq<DeviceId>): nat
    requires AllIn(ns, ids)
  {
    if ids == [] then 0 else SizeSum(ns, ids[..|ids| - 1]) + ns[ids[|ids| - 1]].size
  }

  /** The sum depends only on the sizes of the devices it adds up. */
  lemma {:induction false} SizeSumFrame(ns1: map<DeviceId, Node>, ns2: map<DeviceId, Node>, ids: seq<DeviceId>)
    requires AllIn(ns1, ids) && AllIn(ns2, ids)
    requires forall i :: 0 <= i < |ids| ==> ns1[ids[i]].size == ns2[ids[i]].size
    ensures SizeSum(ns1, ids) == SizeSum(ns2, ids)
  {
    if ids != [] {
      SizeSumFrame(ns1, ns2, ids[..|ids| - 1]);
    }
  }

  lemma {:induction false} SizeSumAppend(ns: map<DeviceId, Node>, a: seq<DeviceId>, b: seq<DeviceId>)
    requires AllIn(ns, a) && AllIn(ns, b)
    ensures AllIn(ns, a + b)
    ensures SizeSum(ns, a + b) == SizeSum(ns, a) + SizeSum(ns, b)
  {
    if b != [] {
      assert (a + b)[..|a + b| - 1] == a + b[..|b| - 1];
      SizeSumAppend(ns, a, b[..|b| - 1]);
    } else {
      assert a + b == a;
    }
  }

  /** Taking one occurrence of a device out of a list takes its size out of the sum. */
  lemma SizeSumWithout(ns: map<DeviceId, Node>, ids: seq<DeviceId>, c: DeviceId)
    requires AllIn(ns, ids) && c in ids
    ensures AllIn(ns, Without(ids, c))
    ensures SizeSum(ns, Without(ids, c)) == SizeSum(ns, ids) - ns[c].size
  {
    var i := IndexOf(ids, c);
    WithoutAt(ids, i);
    var pre, post := ids[..i], ids[i + 1..];
    assert AllIn(ns, pre) && AllIn(ns, [c]) && AllIn(ns, post);
    assert ids == (pre + [c]) + post;
    SizeSumAppend(ns, pre, [c]);
    SizeSumAppend(ns, pre + [c], post);
    SizeSumAppend(ns, pre, post);
  }

  /** When exactly one device of a duplicate-free list grows by `d`, the sum grows by `d`. */
  lemma {:induction false} SizeSumChangeOne(ns1: map<DeviceId, Node>, ns2: map<DeviceId, Node>, ids: seq<DeviceId>, k: DeviceId, d: int)
    requires AllIn(ns1, ids) && AllIn(ns2, ids) && Distinct(ids) && k in ids
    requires k in ns1 && k in ns2 && ns2[k].size == ns1[k].size + d
    requires forall i :: 0 <= i < |ids| && ids[i] != k ==> ns1[ids[i]].size == ns2[ids[i]].size
    ensures SizeSum(ns2, ids) == SizeSum(ns1, ids) + d
  {
    var init := ids[..|ids| - 1];
    if ids[|ids| - 1] == k {
      assert k !in init;
      SizeSumFrame(ns1, ns2, init);
    } else {
      assert k in init;
      SizeSumChangeOne(ns1, ns2, init, k, d);
    }
  }

  /** Parent links climb strictly in rank: the parent chain of every device is finite. */
  ghost predicate RankOk(ns: map<DeviceId, Node>, rk: map<DeviceId, nat>, bound: nat) {
    && rk.Keys == ns.Keys
    && (forall id :: id in ns ==> rk[id] < bound)
    && (forall id :: id in ns && ns[id].parent.Some? ==>
          ns[id].parent.value in ns && rk[id] < rk[ns[id].parent.value])
  }

  /** A device together with every device reached by following parent links from it:
      the devices `update_size` visits. */
  ghost function Ancestry(ns: map<DeviceId, Node>, rk: map<DeviceId, nat>, bound: nat, x: DeviceId): (a: set<DeviceId>)
    requires RankOk(ns, rk, bound) && x in ns
    ensures x in a && a <= ns.Keys
    decreases bound - rk[x]
  {
    match ns[x].parent
    case None => {x}
    case Some(q) => {x} + Ancestry(ns, rk, bound, q)
  }

  lemma {:induction false} AncestryClosed(ns: map<DeviceId, Node>, rk: map<DeviceId, nat>, bound: nat, x: DeviceId, y: DeviceId)
    requires RankOk(ns, rk, bound) && x in ns
    requires y in Ancestry(ns, rk, bound, x) && ns[y].parent.Some?
    ensures ns[y].parent.value in Ancestry(ns, rk, bound, x)
    decreases bound - rk[x]
  {
    if y != x {
      AncestryClosed(ns, rk, bound, ns[x].parent.value, y);
    }
  }

  lemma {:induction false} AncestryRank(ns: map<DeviceId, Node>, rk: map<DeviceId, nat>, bound: nat, x: DeviceId, y: DeviceId)
    requires RankOk(ns, rk, bound) && x in ns
    requires y in Ancestry(ns, rk, bound, x)
    ensures rk[x] <= rk[y]
    decreases bound - rk[x]
  {
    if y != x {
      AncestryRank(ns, rk, bound, ns[x].parent.value, y);
    }
  }

  /** The ancestry depends only on the parent links along it. */
  lemma {:induction false} AncestryAgree(ns1: map<DeviceId, Node>, rk1: map<DeviceId, nat>, b1: nat,
                                         ns2: map<DeviceId, Node>, rk2: map<DeviceId, nat>, b2: nat, x: DeviceId)
    requires RankOk(ns1, rk1, b1) && RankOk(ns2, rk2, b2) && x in ns1 && x in ns2
    requires forall y :: y in Ancestry(ns1, rk1, b1, x) ==> y in ns2 && ns2[y].parent == ns1[y].parent
    ensures Ancestry(ns1, rk1, b1, x) == Ancestry(ns2, rk2, b2, x)
    decreases b1 - rk1[x]
  {
    match ns1[x].parent
    case None =>
    case Some(q) =>
      AncestryAgree(ns1, rk1, b1, ns2, rk2, b2, q);
  }

  /** The link structure every device tree keeps. */
  ghost predicate LinksOk(ns: map<DeviceId, Node>) {
    && (forall id :: id in ns ==> AllIn(ns, ns[id].children) && Distinct(ns[id].children))
    // a device listed as a child has that device as its parent, so no device is listed twice
    && (forall id, i :: id in ns && 0 <= i < |ns[id].children| ==> ns[ns[id].children[i]].parent == Some(id))
    && (forall id :: id in ns && ns[id].parent.Some? && ns[id].parent.value in ns ==>
          !ns[ns[id].parent.value].kind.DiskDevice?)
    && (forall id :: id in ns && ns[id].kind.DiskDevice? ==> ns[id].children == [])
  }

  /** A device's size is what `update_size` last computed: the sum of its children, or
      for a disk the length of its file. */
  ghost predicate Consistent(ns: map<DeviceId, Node>, id: DeviceId)
    requires id in ns && AllIn(ns, ns[id].children)
  {
    match ns[id].kind
    case DiskDevice(d) => ns[id].size == d.file.Length
    case _ => ns[id].size == SizeSum(ns, ns[id].children)
  }

  /** Two arenas that differ at most in device sizes. */
  ghost predicate SameLinks(ns1: map<DeviceId, Node>, ns2: map<DeviceId, Node>) {
    && ns1.Keys == ns2.Keys
    && forall id :: id in ns1 ==>
         ns2[id].kind == ns1[id].kind && ns2[id].parent == ns1[id].parent && ns2[id].children == ns1[id].children
  }

  /** Only sizes outside `anc` are untouched. */
  ghost predicate SizesKept(ns0: map<DeviceId, Node>, ns1: map<DeviceId, Node>, anc: set<DeviceId>)
    requires ns0.Keys == ns1.Keys
  {
    forall n :: n in ns0 && n !in anc ==> ns1[n].size == ns0[n].size
  }

  /** What `update_size` needs on entry at `x`: well-formed links, climbing ranks, and every
      device except `x` agreeing with its children. */
  ghost predicate Ready(ns: map<DeviceId, Node>, rk: map<DeviceId, nat>, b: nat, x: DeviceId) {
    && RankOk(ns, rk, b) && LinksOk(ns) && x in ns && !ns[x].kind.DiskDevice?
    && forall n :: n in ns && n != x ==> Consistent(ns, n)
  }

  /** The effect of `add_child(c)` on device `p` when `c` was not yet a child of `p`:
      `c` is appended, its parent becomes `p`, nothing else is relinked, and only `p` and
      its ancestors (`anc`) change size, `p` growing by the size of `c`. */
  ghost predicate ChildAdded(ns0: map<DeviceId, Node>, ns1: map<DeviceId, Node>, anc: set<DeviceId>, p: DeviceId, c: DeviceId)
    requires p in ns0 && c in ns0
  {
    && ns1.Keys == ns0.Keys
    && ns1[p].children == ns0[p].children + [c]
    && ns1[p].kind == ns0[p].kind && ns1[p].parent == ns0[p].parent
    && ns1[c].parent == Some(p) && ns1[c].kind == ns0[c].kind && ns1[c].children == ns0[c].children
    && (forall n :: n in ns0 && n != p && n != c ==>
          ns1[n].kind == ns0[n].kind && ns1[n].parent == ns0[n].parent && ns1[n].children == ns0[n].children)
    && SizesKept(ns0, ns1, anc)
    && ns1[p].size == ns0[p].size + ns0[c].size
  }

  /** The effect of `remove_child(c)` on device `p` when `c` was a child of `p`: `c` leaves
      the list, everything else keeps its links (the parent link of `c` included), and `p`
      shrinks by the size of `c`. */
  ghost predicate ChildRemoved(ns0: map<DeviceId, Node>, ns1: map<DeviceId, Node>, anc: set<DeviceId>, p: DeviceId, c: DeviceId)
    requires p in ns0 && c in ns0
  {
    && ns1.Keys == ns0.Keys
    && ns1[p].children == Without(ns0[p].children, c)
    && ns1[p].kind == ns0[p].kind && ns1[p].parent == ns0[p].parent
    && (forall n :: n in ns0 && n != p ==>
          ns1[n].kind == ns0[n].kind && ns1[n].parent == ns0[n].parent && ns1[n].children == ns0[n].children)
    && SizesKept(ns0, ns1, anc)
    && ns1[p].size == ns0[p].size - ns0[c].size
  }

  /** The arena after `c` is appended to the children of `p` and linked back to it. */
  function Attach(ns: map<DeviceId, Node>, p: DeviceId, c: DeviceId): map<DeviceId, Node>
    requires p in ns && c in ns
  {
    ns[p := ns[p].(children := ns[p].children + [c])][c := ns[c].(parent := Some(p))]
  }

  /** Raising the ranks of `p` and its ancestors above `c` keeps every parent link
      climbing in rank once `c` hangs below `p`, provided `c` is not among them. */
  lemma RaiseRanks(ns: map<DeviceId, Node>, rk: map<DeviceId, nat>, b: nat, p: DeviceId, c: DeviceId)
    returns (rk2: map<DeviceId, nat>, b2: nat)
    requires RankOk(ns, rk, b) && p in ns && c in ns
    requires c !in Ancestry(ns, rk, b, p)
    ensures RankOk(Attach(ns, p, c), rk2, b2)
    ensures Ancestry(Attach(ns, p, c), rk2, b2, p) == Ancestry(ns, rk, b, p)
  {
    var a := Ancestry(ns, rk, b, p);
    var k := if rk[c] < rk[p] then 0 else rk[c] - rk[p] + 1;
    rk2 := map n | n in rk :: if n in a then rk[n] + k else rk[n];
    b2 := b + k;
    var ns2 := Attach(ns, p, c);
    forall id | id in ns2 && ns2[id].parent.Some?
      ensures ns2[id].parent.value in ns2 && rk2[id] < rk2[ns2[id].parent.value]
    {
      if id != c {
        var q := ns[id].parent.value;
        if id in a {
          AncestryClosed(ns, rk, b, p, id);
        } else {
          if q in a { AncestryRank(ns, rk, b, p, q); }
        }
      }
    }
    AncestryAgree(ns, rk, b, ns2, rk2, b2, p);
  }

  /** Everything `update_size` needs once `c` hangs below `p`: ranks that climb along the
      new link, well-formed links, and every device except `p` agreeing with its children. */
  lemma AttachReady(ns: map<DeviceId, Node>, rk: map<DeviceId, nat>, b: nat, p: DeviceId, c: DeviceId)
    returns (rk2: map<DeviceId, nat>, b2: nat)
    requires RankOk(ns, rk, b) && LinksOk(ns) && p in ns && c in ns && !ns[p].kind.DiskDevice?
    requires c !in Ancestry(ns, rk, b, p)
    requires forall n :: n in ns ==> Consistent(ns, n)
    requires forall n :: n in ns ==> c !in ns[n].children
    ensures Attach(ns, p, c).Keys == ns.Keys && Ready(Attach(ns, p, c), rk2, b2, p)
    ensures Ancestry(Attach(ns, p, c), rk2, b2, p) == Ancestry(ns, rk, b, p)
  {
    rk2, b2 := RaiseRanks(ns, rk, b, p, c);
    AttachConsistent(ns, p, c);
  }

  /** The arena after device `x` takes size `s`. */
  function Resize(ns: map<DeviceId, Node>, x: DeviceId, s: nat): map<DeviceId, Node>
    requires x in ns
  {
    ns[x := ns[x].(size := s)]
  }

  /** Arenas with the same links are equally well formed. */
  lemma SameLinksOk(ns1: map<DeviceId, Node>, ns2: map<DeviceId, Node>, rk: map<DeviceId, nat>, b: nat)
    requires SameLinks(ns1, ns2) && RankOk(ns1, rk, b) && LinksOk(ns1)
    ensures RankOk(ns2, rk, b) && LinksOk(ns2)
  {
    assert forall id :: id in ns2 ==> ns2[id].children == ns1[id].children;
  }

  /** Arenas with the same links give every device the same ancestry. */
  lemma SameLinksAncestry(ns1: map<DeviceId, Node>, ns2: map<DeviceId, Node>, rk: map<DeviceId, nat>, b: nat)
    requires SameLinks(ns1, ns2) && RankOk(ns1, rk, b) && RankOk(ns2, rk, b)
    ensures forall y :: y in ns1 ==> Ancestry(ns2, rk, b, y) == Ancestry(ns1, rk, b, y)
  {
    forall y | y in ns1 ensures Ancestry(ns2, rk, b, y) == Ancestry(ns1, rk, b, y) {
      AncestryAgree(ns1, rk, b, ns2, rk, b, y);
    }
  }

  /** Resizing one device relinks nothing. */
  lemma ResizeLinks(ns: map<DeviceId, Node>, rk: map<DeviceId, nat>, b: nat, x: DeviceId, s: nat)
    requires RankOk(ns, rk, b) && LinksOk(ns) && x in ns && !ns[x].kind.DiskDevice?
    ensures RankOk(Resize(ns, x, s), rk, b) && LinksOk(Resize(ns, x, s))
    ensures SameLinks(ns, Resize(ns, x, s))
    ensures forall y :: y in ns ==> Ancestry(Resize(ns, x, s), rk, b, y) == Ancestry(ns, rk, b, y)
  {
    var ns2 := Resize(ns, x, s);
    assert SameLinks(ns, ns2);
    SameLinksOk(ns, ns2, rk, b);
    SameLinksAncestry(ns, ns2, rk, b);
  }

  /** Giving `x` the sum of its children's sizes makes it agree with them, and leaves every
      other device agreeing as before, except the parent of `x`, whose sum includes `x`. */
  lemma ResizeConsistent(ns: map<DeviceId, Node>, rk: map<DeviceId, nat>, b: nat, x: DeviceId, s: nat)
    requires Ready(ns, rk, b, x) && s == SizeSum(ns, ns[x].children)
    ensures LinksOk(Resize(ns, x, s))
    ensures forall n :: n in ns && ns[x].parent != Some(n) ==> Consistent(Resize(ns, x, s), n)
    ensures ns[x].parent.Some? ==> Ready(Resize(ns, x, s), rk, b, ns[x].parent.value)
  {
    var ns2 := Resize(ns, x, s);
    ResizeLinks(ns, rk, b, x, s);
    forall n | n in ns && ns[x].parent != Some(n) ensures Consistent(ns2, n) {
      // `x` is listed only by its parent, and never by itself
      forall j | 0 <= j < |ns[n].children| ensures ns[n].children[j] != x {
        assert ns[ns[n].children[j]].parent == Some(n);
      }
      SizeSumFrame(ns, ns2, ns[n].children);
      if n != x { assert Consistent(ns, n); }
    }
  }

  /** Devices whose children and sizes are untouched keep agreeing with their children. */
  lemma KeptSums(ns: map<DeviceId, Node>, ns2: map<DeviceId, Node>, x: DeviceId)
    requires LinksOk(ns) && LinksOk(ns2) && ns2.Keys == ns.Keys
    requires forall n :: n in ns ==> ns2[n].size == ns[n].size && ns2[n].kind == ns[n].kind
    requires forall n :: n in ns && n != x ==> ns2[n].children == ns[n].children
    requires forall n :: n in ns ==> Consistent(ns, n)
    ensures forall n :: n in ns && n != x ==> Consistent(ns2, n)
  {
    forall n | n in ns && n != x ensures Consistent(ns2, n) {
      assert Consistent(ns, n);
      SizeSumFrame(ns, ns2, ns[n].children);
    }
  }

  /** Hanging `c`, which no device lists, below `p` keeps the links well formed. */
  lemma AttachLinks(ns: map<DeviceId, Node>, p: DeviceId, c: DeviceId)
    requires LinksOk(ns) && p in ns && c in ns && !ns[p].kind.DiskDevice?
    requires forall n :: n in ns ==> c !in ns[n].children
    ensures LinksOk(Attach(ns, p, c))
  {
    var ns2 := Attach(ns, p, c);
    DistinctAppend(ns[p].children, c);
    forall id | id in ns2 ensures AllIn(ns2, ns2[id].children) && Distinct(ns2[id].children) {
    }
    forall id, i | id in ns2 && 0 <= i < |ns2[id].children|
      ensures ns2[ns2[id].children[i]].parent == Some(id)
    {
      if id != p || i < |ns[p].children| {
        assert ns2[id].children[i] == ns[id].children[i];
        assert ns[id].children[i] != c;
      }
    }
  }

  /** Hanging `c` below `p` keeps the links well formed and every device other than `p`
      agreeing with its children. */
  lemma AttachConsistent(ns: map<DeviceId, Node>, p: DeviceId, c: DeviceId)
    requires LinksOk(ns) && p in ns && c in ns && !ns[p].kind.DiskDevice?
    requires forall n :: n in ns ==> Consistent(ns, n)
    requires forall n :: n in ns ==> c !in ns[n].children
    ensures LinksOk(Attach(ns, p, c))
    ensures forall n :: n in ns && n != p ==> Consistent(Attach(ns, p, c), n)
  {
    AttachLinks(ns, p, c);
    KeptSums(ns, Attach(ns, p, c), p);
  }

  /** The arena after `c` is dropped from the children of `p`. */
  function Detach(ns: map<DeviceId, Node>, p: DeviceId, c: DeviceId): map<DeviceId, Node>
    requires p in ns
  {
    ns[p := ns[p].(children := Without(ns[p].children, c))]
  }

  /** Dropping `c` from the children of `p` keeps the links well formed. */
  lemma DetachLinks(ns: map<DeviceId, Node>, p: DeviceId, c: DeviceId)
    requires LinksOk(ns) && p in ns && c in ns[p].children
    ensures LinksOk(Detach(ns, p, c))
  {
    var ns2 := Detach(ns, p, c);
    WithoutDistinct(ns[p].children, c);
    forall id | id in ns2 ensures AllIn(ns2, ns2[id].children) && Distinct(ns2[id].children) {
      if id == p {
        forall i | 0 <= i < |ns2[p].children| ensures ns2[p].children[i] in ns2 {
          assert ns2[p].children[i] in ns[p].children;
        }
      }
    }
    forall id, i | id in ns2 && 0 <= i < |ns2[id].children|
      ensures ns2[ns2[id].children[i]].parent == Some(id)
    {
      var y := ns2[id].children[i];
      assert y in ns[id].children;
    }
  }

  /** Dropping `c` from the children of `p` keeps the links well formed and every device
      other than `p` agreeing with its children. */
  lemma DetachConsistent(ns: map<DeviceId, Node>, rk: map<DeviceId, nat>, b: nat, p: DeviceId, c: DeviceId)
    requires RankOk(ns, rk, b) && LinksOk(ns) && p in ns && c in ns[p].children
    requires forall n :: n in ns ==> Consistent(ns, n)
    ensures Detach(ns, p, c).Keys == ns.Keys && Ready(Detach(ns, p, c), rk, b, p)
    ensures Ancestry(Detach(ns, p, c), rk, b, p) == Ancestry(ns, rk, b, p)
  {
    var ns2 := Detach(ns, p, c);
    assert forall n :: n in ns ==> ns2[n].size == ns[n].size && ns2[n].kind == ns[n].kind && ns2[n].parent == ns[n].parent;
    assert RankOk(ns2, rk, b);
    DetachLinks(ns, p, c);
    KeptSums(ns, ns2, p);
    AncestryAgree(ns, rk, b, ns2, rk, b, p);
  }

  /** Dropping `c` from below `p` and then recomputing sizes from `p` upward has exactly
      the effect `ChildRemoved` describes. */
  lemma RemovedEffect(ns: map<DeviceId, Node>, rk: map<DeviceId, nat>, b: nat, mid: map<DeviceId, Node>,
                      fin: map<DeviceId, Node>, p: DeviceId, c: DeviceId)
    requires RankOk(ns, rk, b) && LinksOk(ns) && p in ns && c in ns[p].children
    requires Consistent(ns, p) && !ns[p].kind.DiskDevice?
    requires mid == Detach(ns, p, c) && SameLinks(mid, fin)
    requires SizesKept(mid, fin, Ancestry(ns, rk, b, p))
    requires AllIn(fin, fin[p].children) && fin[p].size == SizeSum(fin, fin[p].children)
    ensures c in ns && ChildRemoved(ns, fin, Ancestry(ns, rk, b, p), p, c)
  {
    assert SizesKept(ns, fin, Ancestry(ns, rk, b, p));
    RemovedSize(ns, rk, b, fin, p, c);
  }

  /** Attaching `c` below `p` and then recomputing sizes from `p` upward has exactly the
      effect `ChildAdded` describes. */
  lemma AddedEffect(ns: map<DeviceId, Node>, rk: map<DeviceId, nat>, b: nat, mid: map<DeviceId, Node>,
                    fin: map<DeviceId, Node>, p: DeviceId, c: DeviceId)
    requires RankOk(ns, rk, b) && LinksOk(ns) && p in ns && c in ns && !ns[p].kind.DiskDevice?
    requires c !in Ancestry(ns, rk, b, p) && c !in ns[p].children && Consistent(ns, p)
    requires mid == Attach(ns, p, c) && SameLinks(mid, fin)
    requires SizesKept(mid, fin, Ancestry(ns, rk, b, p))
    requires AllIn(fin, fin[p].children) && fin[p].size == SizeSum(fin, fin[p].children)
    ensures ChildAdded(ns, fin, Ancestry(ns, rk, b, p), p, c)
  {
    AddedSize(ns, rk, b, fin, p, c);
  }

  /** After the recomputation, `p` is the sum of its old children, which kept their
      sizes, plus `c`. */
  lemma AddedSize(ns: map<DeviceId, Node>, rk: map<DeviceId, nat>, b: nat, fin: map<DeviceId, Node>, p: DeviceId, c: DeviceId)
    requires RankOk(ns, rk, b) && LinksOk(ns) && p in ns && c in ns
    requires c !in Ancestry(ns, rk, b, p)
    requires ns.Keys == fin.Keys && SizesKept(ns, fin, Ancestry(ns, rk, b, p))
    requires fin[p].children == ns[p].children + [c] && AllIn(fin, fin[p].children)
    requires fin[p].size == SizeSum(fin, fin[p].children)
    requires Consistent(ns, p) && !ns[p].kind.DiskDevice?
    ensures fin[p].size == ns[p].size + ns[c].size
  {
    var anc := Ancestry(ns, rk, b, p);
    forall i | 0 <= i < |ns[p].children| ensures ns[p].children[i] !in anc {
      if ns[p].children[i] in anc { AncestryRank(ns, rk, b, p, ns[p].children[i]); }
    }
    SizeSumFrame(ns, fin, ns[p].children);
    assert (ns[p].children + [c])[..|ns[p].children|] == ns[p].children;
  }

  /** After the recomputation, `p` is the sum of its remaining children, which kept their
      sizes: its old size less that of `c`. */
  lemma RemovedSize(ns: map<DeviceId, Node>, rk: map<DeviceId, nat>, b: nat, fin: map<DeviceId, Node>, p: DeviceId, c: DeviceId)
    requires RankOk(ns, rk, b) && LinksOk(ns) && p in ns && c in ns[p].children
    requires ns.Keys == fin.Keys && SizesKept(ns, fin, Ancestry(ns, rk, b, p))
    requires fin[p].children == Without(ns[p].children, c) && AllIn(fin, fin[p].children)
    requires fin[p].size == SizeSum(fin, fin[p].children)
    requires Consistent(ns, p) && !ns[p].kind.DiskDevice?
    ensures fin[p].size == ns[p].size - ns[c].size
  {
    var anc := Ancestry(ns, rk, b, p);
    var rest := Without(ns[p].children, c);
    forall i | 0 <= i < |rest| ensures rest[i] !in anc && rest[i] in ns {
      assert rest[i] in ns[p].children;
      if rest[i] in anc { AncestryRank(ns, rk, b, p, rest[i]); }
    }
    SizeSumFrame(ns, fin, rest);
    SizeSumWithout(ns, ns[p].children, c);
  }

  /** A device that is listed by its parent. */
  ghost predicate ListedByParent(ns: map<DeviceId, Node>, x: DeviceId) {
    x in ns && ns[x].parent.Some? && ns[x].parent.value in ns && x in ns[ns[x].parent.value].children
  }

  /** When `p` changes size by `d` and nothing outside its ancestry changes size, the
      parent that lists `p` changes size by the same `d`. */
  lemma ParentFollows(ns: map<DeviceId, Node>, rk: map<DeviceId, nat>, b: nat, fin: map<DeviceId, Node>, p: DeviceId, d: int)
    requires RankOk(ns, rk, b) && LinksOk(ns) && ListedByParent(ns, p)
    requires ns.Keys == fin.Keys && SizesKept(ns, fin, Ancestry(ns, rk, b, p))
    requires fin[p].size == ns[p].size + d
    requires var q := ns[p].parent.value;
      && !ns[q].kind.DiskDevice? && Consistent(ns, q)
      && fin[q].children == ns[q].children && AllIn(fin, fin[q].children)
      && fin[q].size == SizeSum(fin, fin[q].children)
    ensures fin[ns[p].parent.value].size == ns[ns[p].parent.value].size + d
  {
    var q := ns[p].parent.value;
    var sib := ns[q].children;
    forall i | 0 <= i < |sib| && sib[i] != p ensures ns[sib[i]].size == fin[sib[i]].size {
      // a sibling ranks below `q`, while every ancestor of `p` other than `p` ranks at or above it
      assert ns[sib[i]].parent == Some(q);
      if sib[i] in Ancestry(ns, rk, b, p) {
        assert sib[i] in Ancestry(ns, rk, b, q);
        AncestryRank(ns, rk, b, q, sib[i]);
      }
    }
    SizeSumChangeOne(ns, fin, sib, p, d);
  }

  /** After `add_child(c)` on `p`, the device that lists `p` has grown by the size of `c`. */
  lemma AddedParent(ns: map<DeviceId, Node>, rk: map<DeviceId, nat>, b: nat, fin: map<DeviceId, Node>, p: DeviceId, c: DeviceId)
    requires RankOk(ns, rk, b) && LinksOk(ns) && c in ns && ListedByParent(ns, p)
    requires forall n :: n in ns ==> Consistent(ns, n)
    requires ChildAdded(ns, fin, Ancestry(ns, rk, b, p), p, c) && LinksOk(fin)
    requires forall n :: n in fin ==> Consistent(fin, n)
    ensures fin[ns[p].parent.value].size == ns[ns[p].parent.value].size + ns[c].size
  {
    var q := ns[p].parent.value;
    assert Consistent(ns, q) && Consistent(fin, q);
    ParentFollows(ns, rk, b, fin, p, ns[c].size);
  }

  /** After `remove_child(c)` on `p`, the device that lists `p` has shrunk by the size of `c`. */
  lemma RemovedParent(ns: map<DeviceId, Node>, rk: map<DeviceId, nat>, b: nat, fin: map<DeviceId, Node>, p: DeviceId, c: DeviceId)
    requires RankOk(ns, rk, b) && LinksOk(ns) && c in ns && ListedByParent(ns, p)
    requires forall n :: n in ns ==> Consistent(ns, n)
    requires ChildRemoved(ns, fin, Ancestry(ns, rk, b, p), p, c) && LinksOk(fin)
    requires forall n :: n in fin ==> Consistent(fin, n)
    ensures fin[ns[p].parent.value].size == ns[ns[p].parent.value].size - ns[c].size
  {
    var q := ns[p].parent.value;
    assert Consistent(ns, q) && Consistent(fin, q);
    ParentFollows(ns, rk, b, fin, p, -(ns[c].size as int));
  }

  /** A new device with no parent and no children leaves the links well formed. */
  lemma NewDeviceLinks(ns: map<DeviceId, Node>, rk: map<DeviceId, nat>, b: nat, id: DeviceId, node: Node)
    requires RankOk(ns, rk, b) && LinksOk(ns)
    requires id !in ns && node.parent == None && node.children == []
    ensures RankOk(ns[id := node], rk[id := 0], b + 1) && LinksOk(ns[id := node])
  {
    var ns2 := ns[id := node];
    assert forall n :: n in ns ==> ns2[n] == ns[n];
    assert RankOk(ns2, rk[id := 0], b + 1);
    forall n | n in ns2 ensures AllIn(ns2, ns2[n].children) && Distinct(ns2[n].children) {
      if n != id {
        assert AllIn(ns, ns[n].children);
      }
    }
    forall n, i | n in ns2 && 0 <= i < |ns2[n].children|
      ensures ns2[ns2[n].children[i]].parent == Some(n)
    {
      assert ns2[n].children[i] in ns;
    }
  }

  /** A new device whose size is consistent on its own leaves every device agreeing with
      its children. */
  lemma NewDeviceSums(ns: map<DeviceId, Node>, id: DeviceId, node: Node, ns2: map<DeviceId, Node>)
    requires LinksOk(ns) && forall n :: n in ns ==> Consistent(ns, n)
    requires id !in ns && node.children == [] && ns2 == ns[id := node] && LinksOk(ns2)
    requires node.size == (if node.kind.DiskDevice? then node.kind.disk.file.Length else 0)
    ensures forall n :: n in ns2 ==> Consistent(ns2, n)
  {
    forall n | n in ns2 ensures Consistent(ns2, n) {
      if n != id {
        assert Consistent(ns, n);
        SizeSumFrame(ns, ns2, ns[n].children);
      }
    }
  }

  /** The devices of one storage stack. */
  class Tree {
    var nodes: map<DeviceId, Node>
    var next: DeviceId
    ghost var rank: map<DeviceId, nat>
    ghost var bound: nat

    ghost predicate Linked()
      reads this
    {
      && (forall id :: id in nodes ==> id < next)
      && RankOk(nodes, rank, bound)
      && LinksOk(nodes)
    }

    /** Every device's size agrees with its children. */
    ghost predicate Valid()
      reads this
    {
      Linked() && forall id :: id in nodes ==> Consistent(nodes, id)
    }

    ghost function Ancestors(x: DeviceId): set<DeviceId>
      reads this
      requires Linked() && x in nodes
    {
      Ancestry(nodes, rank, bound, x)
    }

    /** `num_child`. */
    function NumChild(id: DeviceId): nat
      reads this
      requires id in nodes
    {
      |nodes[id].children|
    }

    constructor ()
      ensures Valid() && nodes == map[] && next == 0
    {
      nodes, next := map[], 0;
      rank, bound := map[], 0;
    }

    /** Creating a device: a raid or a lun starts with size 0, no parent and no children;
        a disk reports the length of its file. */
    method AddDevice(kind: Kind) returns (id: DeviceId)
      requires Valid()
      modifies this
      ensures Valid()
      ensures id !in old(nodes)
      ensures nodes == old(nodes)[id := Node(kind, None, [], if kind.DiskDevice? then kind.disk.file.Length else 0)]
      ensures !kind.DiskDevice? ==> nodes[id].size == 0 && NumChild(id) == 0
    {
      id := next;
      var size := if kind.DiskDevice? then kind.disk.file.Length else 0;
      NewDeviceLinks(nodes, rank, bound, id, Node(kind, None, [], size));
      NewDeviceSums(nodes, id, Node(kind, None, [], size), nodes[id := Node(kind, None, [], size)]);
      nodes := nodes[id := Node(kind, None, [], size)];
      next := next + 1;
      rank := rank[id := 0];
      bound := bound + 1;
    }

    /** `update_size`: recompute `x`'s size from its children, then do the same for its
        parent, and so on up to the root. Before the call only `x` may disagree with its
        children; afterwards every device agrees, and only `x` and its ancestors changed. */
    method UpdateSize(x: DeviceId)
      requires (forall id :: id in nodes ==> id < next) && Ready(nodes, rank, bound, x)
      modifies this`nodes
      ensures Valid()
      ensures SameLinks(old(nodes), nodes)
      ensures SizesKept(old(nodes), nodes, old(Ancestors(x)))
      decreases bound - rank[x]
    {
      var children := nodes[x].children;
      var total := 0;
      var i := 0;
      while i < |children|
        invariant 0 <= i <= |children|
        invariant total == SizeSum(nodes, children[..i])
      {
        assert children[..i + 1][..i] == children[..i];
        total := total + nodes[children[i]].size;
        i := i + 1;
      }
      assert children[..i] == children;
      ghost var ns := nodes;
      ResizeConsistent(nodes, rank, bound, x, total);
      ResizeLinks(nodes, rank, bound, x, total);
      nodes := Resize(nodes, x, total);
      match nodes[x].parent
      case None =>
      case Some(q) =>
        assert ns[x].parent == Some(q);
        UpdateSize(q);
    }

    /** `add_child(c)` on device `p`: a child already listed changes nothing; otherwise
        `c` is appended, linked back to `p`, and sizes are recomputed from `p` upward.
        `c` must not be `p` or one of its ancestors (the recomputation would climb
        forever) and must not be listed by another device. */
    method AddChild(p: DeviceId, c: DeviceId)
      requires Valid() && p in nodes && c in nodes && !nodes[p].kind.DiskDevice?
      requires c !in Ancestors(p)
      requires forall n :: n in nodes && n != p ==> c !in nodes[n].children
      modifies this`nodes, this`rank, this`bound
      ensures Valid()
      ensures c in old(nodes[p].children) ==> nodes == old(nodes)
      ensures c !in old(nodes[p].children) ==> ChildAdded(old(nodes), nodes, old(Ancestors(p)), p, c)
      ensures c !in old(nodes[p].children) ==> NumChild(p) == old(NumChild(p)) + 1
    {
      if c in nodes[p].children {
        return;
      }
      ghost var ns, rk, b := nodes, rank, bound;
      Link(p, c);
      ghost var mid := nodes;
      UpdateSize(p);
      AddedEffect(ns, rk, b, mid, nodes, p, c);
    }

    /** The first half of `add_child`: `c` is appended to the children of `p` and its
        parent becomes `p`; only `p` may now disagree with its children. */
    method Link(p: DeviceId, c: DeviceId)
      requires Valid() && p in nodes && c in nodes && !nodes[p].kind.DiskDevice?
      requires c !in Ancestors(p)
      requires forall n :: n in nodes ==> c !in nodes[n].children
      modifies this`nodes, this`rank, this`bound
      ensures (forall id :: id in nodes ==> id < next) && Ready(nodes, rank, bound, p)
      ensures nodes == Attach(old(nodes), p, c)
      ensures Ancestry(nodes, rank, bound, p) == old(Ancestors(p))
    {
      ghost var rk2, b2 := AttachReady(nodes, rank, bound, p, c);
      nodes, rank, bound := Attach(nodes, p, c), rk2, b2;
    }

    /** `remove_child(c)` on device `p`: an absent child changes nothing; otherwise `c`
        leaves the list and sizes are recomputed from `p` upward. The parent link of `c`
        is left as it was. */
    method RemoveChild(p: DeviceId, c: DeviceId)
      requires Valid() && p in nodes && c in nodes && !nodes[p].kind.DiskDevice?
      modifies this`nodes
      ensures Valid()
      ensures c !in old(nodes[p].children) ==> nodes == old(nodes)
      ensures c in old(nodes[p].children) ==> ChildRemoved(old(nodes), nodes, old(Ancestors(p)), p, c)
      ensures c in old(nodes[p].children) ==> NumChild(p) == old(NumChild(p)) - 1
    {
      if c !in nodes[p].children {
        return;
      }
      ghost var ns := nodes;
      DetachConsistent(nodes, rank, bound, p, c);
      nodes := Detach(nodes, p, c);
      ghost var mid := nodes;
      UpdateSize(p);
      RemovedEffect(ns, rank, bound, mid, nodes, p, c);
    }

    /** The base device's `read`: a raid or a lun raises `NeedToBeImplementedError`;
        a disk serves the read itself. */
    method Read(id: DeviceId, offset: int, length: int) returns (r: Result<(int, Option<seq<byte>>), StorageError>)
      requires Valid() && id in nodes
      requires nodes[id].kind.DiskDevice? ==> nodes[id].kind.disk.Valid()
      modifies if nodes[id].kind.DiskDevice? then {nodes[id].kind.disk} else {}
      ensures !nodes[id].kind.DiskDevice? ==> r == Err(NeedToBeImplemented)
      ensures nodes[id].kind.DiskDevice? && IsValidRange(offset, length, nodes[id].size) ==>
                r == Ok((ErrSuccess, Some(nodes[id].kind.disk.file[offset..offset + length])))
      ensures nodes[id].kind.DiskDevice? && !IsValidRange(offset, length, nodes[id].size) ==>
                r == Ok((ErrInvalidArgument, None))
    {
      match nodes[id].kind
      case DiskDevice(d) =>
        assert Consistent(nodes, id);
        var code, data := d.Read(offset, length);
        r := Ok((code, data));
      case _ =>
        r := Err(NeedToBeImplemented);
    }

    /** The base device's `write`: a raid or a lun raises `NeedToBeImplementedError`;
        a disk serves the write itself. */
    method Write(id: DeviceId, data: Option<seq<byte>>, offset: int) returns (r: Result<int, StorageError>)
      requires Valid() && id in nodes
      requires nodes[id].kind.DiskDevice? ==> nodes[id].kind.disk.Valid()
      modifies if nodes[id].kind.DiskDevice? then {nodes[id].kind.disk, nodes[id].kind.disk.file} else {}
      ensures !nodes[id].kind.DiskDevice? ==> r == Err(NeedToBeImplemented)
      ensures nodes[id].kind.DiskDevice? ==> r == Ok(if data.None? then ErrInvalidArgument else ErrSuccess)
      ensures nodes[id].kind.DiskDevice? && data.Some? && IsValidRange(offset, |data.value|, nodes[id].size) ==>
                nodes[id].kind.disk.file[..] == Disk.Overwrite(old(nodes[id].kind.disk.file[..]), data.value, offset)
      ensures nodes[id].kind.DiskDevice? && (data.None? || !IsValidRange(offset, |data.value|, nodes[id].size)) ==>
                nodes[id].kind.disk.file[..] == old(nodes[id].kind.disk.file[..])
    {
      match nodes[id].kind
      case DiskDevice(d) =>
        assert Consistent(nodes, id);
        var code := d.Write(data, offset);
        r := Ok(code);
      case _ =>
        r := Err(NeedToBeImplemented);
    }
  }
}
