/** Raids (raid.py): `add_disk` and `remove_disk` are `add_child` and `remove_child`. */
module Raid {
  import opened DeviceTree

  /** `Raid.add_disk`: exactly `add_child`. A raid that its parent (a lun) lists passes the
      growth on: the parent grows by the size of the disk as well. */
  method AddDisk(t: Tree, raid: DeviceId, disk: DeviceId)
    requires t.Valid() && raid in t.nodes && disk in t.nodes && t.nodes[raid].kind == RaidDevice
    requires disk !in t.Ancestors(raid)
    requires forall n :: n in t.nodes && n != raid ==> disk !in t.nodes[n].children
    modifies t
    ensures t.Valid()
    ensures disk in old(t.nodes[raid].children) ==> t.nodes == old(t.nodes)
    ensures disk !in old(t.nodes[raid].children) ==>
              ChildAdded(old(t.nodes), t.nodes, old(t.Ancestors(raid)), raid, disk)
    ensures disk !in old(t.nodes[raid].children) && old(ListedByParent(t.nodes, raid)) ==>
              var lun := old(t.nodes[raid].parent.value);
              t.nodes[lun].size == old(t.nodes)[lun].size + old(t.nodes[disk].size)
  {
    ghost var ns, rk, b := t.nodes, t.rank, t.bound;
    t.AddChild(raid, disk);
    if disk !in ns[raid].children && ListedByParent(ns, raid) {
      AddedParent(ns, rk, b, t.nodes, raid, disk);
    }
  }

  /** `Raid.remove_disk`: exactly `remove_child`. A raid that its parent lists passes the
      loss on: the parent shrinks by the size of the disk as well. */
  method RemoveDisk(t: Tree, raid: DeviceId, disk: DeviceId)
    requires t.Valid() && raid in t.nodes && disk in t.nodes && t.nodes[raid].kind == RaidDevice
    modifies t`nodes
    ensures t.Valid()
    ensures disk !in old(t.nodes[raid].children) ==> t.nodes == old(t.nodes)
    ensures disk in old(t.nodes[raid].children) ==>
              ChildRemoved(old(t.nodes), t.nodes, old(t.Ancestors(raid)), raid, disk)
    ensures disk in old(t.nodes[raid].children) && old(ListedByParent(t.nodes, raid)) ==>
              var lun := old(t.nodes[raid].parent.value);
              t.nodes[lun].size == old(t.nodes)[lun].size - old(t.nodes[disk].size)
  {
    ghost var ns := t.nodes;
    t.RemoveChild(raid, disk);
    if disk in ns[raid].children && ListedByParent(ns, raid) {
      RemovedParent(ns, t.rank, t.bound, t.nodes, raid, disk);
    }
  }
}
