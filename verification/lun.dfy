/** Luns (lun.py): `add_raid` and `remove_raid` are `add_child` and `remove_child`. */
module Lun {
  import opened DeviceTree

  /** `Lun.add_raid`: exactly `add_child`; the raid becomes the lun's last child. */
  method AddRaid(t: Tree, lun: DeviceId, raid: DeviceId)
    requires t.Valid() && lun in t.nodes && raid in t.nodes && t.nodes[lun].kind == LunDevice
    requires raid !in t.Ancestors(lun)
    requires forall n :: n in t.nodes && n != lun ==> raid !in t.nodes[n].children
    modifies t
    ensures t.Valid()
    ensures raid in old(t.nodes[lun].children) ==> t.nodes == old(t.nodes)
    ensures raid !in old(t.nodes[lun].children) ==>
              ChildAdded(old(t.nodes), t.nodes, old(t.Ancestors(lun)), lun, raid)
  {
    t.AddChild(lun, raid);
  }

  /** `Lun.remove_raid`: exactly `remove_child`. */
  method RemoveRaid(t: Tree, lun: DeviceId, raid: DeviceId)
    requires t.Valid() && lun in t.nodes && raid in t.nodes && t.nodes[lun].kind == LunDevice
    modifies t`nodes
    ensures t.Valid()
    ensures raid !in old(t.nodes[lun].children) ==> t.nodes == old(t.nodes)
    ensures raid in old(t.nodes[lun].children) ==>
              ChildRemoved(old(t.nodes), t.nodes, old(t.Ancestors(lun)), lun, raid)
  {
    t.RemoveChild(lun, raid);
  }
}
