/**
 * The patch a diff between the project and the existing tree produces: the
 * instances to remove, the instances to add, and per-instance updates whose
 * property deltas are either a new value (`Some`) or a clear (`None`).
 */
module Patch {
  import opened Wrappers
  import opened Dom

  /** A prospective subtree built from the project, with no refs of its own. */
  datatype InstanceSnapshot = InstanceSnapshot(
    name: string,
    className: string,
    properties: Properties,
    children: seq<InstanceSnapshot>)

  /** Insert `instance` under `parentId`. */
  datatype PatchAdd = PatchAdd(parentId: Ref, instance: InstanceSnapshot)

  /** Changes to the instance `id`. A property delta of `Some(v)` sets the
      property to `v`; `None` clears it; a property absent from the map is
      left as it is. */
  datatype PatchUpdate = PatchUpdate(
    id: Ref,
    changedName: Option<string>,
    changedClassName: Option<string>,
    changedProperties: map<string, Option<Variant>>)

  datatype PatchSetValue = PatchSetValue(
    removedInstances: seq<Ref>,
    addedInstances: seq<PatchAdd>,
    updatedInstances: seq<PatchUpdate>)

  /** A patch set held in a variable that the sync command edits in place. */
  class PatchSet {
    var removedInstances: seq<Ref>
    var addedInstances: seq<PatchAdd>
    var updatedInstances: seq<PatchUpdate>

    function Value(): PatchSetValue
      reads this
    {
      PatchSetValue(removedInstances, addedInstances, updatedInstances)
    }

    constructor (p: PatchSetValue)
      ensures Value() == p
    {
      removedInstances := p.removedInstances;
      addedInstances := p.addedInstances;
      updatedInstances := p.updatedInstances;
    }
  }
}
