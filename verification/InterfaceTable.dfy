/** The interface table that the other elements consult. */
module InterfaceTable {
  import opened VidBits

  /** Interface ids to interface indexes, and back. */
  class InterfaceTable {
    var interfaces: map<Vid, nat>
    var rinterfaces: map<nat, Vid>
    var count: nat
    /** Interfaces that have been given an id, and whether all have. */
    var isvidset: set<nat>
    var isVIDAssignmentDone: bool

    constructor (interfaces: map<Vid, nat>, rinterfaces: map<nat, Vid>, count: nat, isvidset: set<nat>, done: bool)
      ensures this.interfaces == interfaces && this.rinterfaces == rinterfaces && this.count == count
      ensures this.isvidset == isvidset && isVIDAssignmentDone == done
    {
      this.interfaces, this.rinterfaces, this.count := interfaces, rinterfaces, count;
      this.isvidset, isVIDAssignmentDone := isvidset, done;
    }

    /** An id is mine when both directions of the mapping agree on it. */
    predicate Owns(v: Vid)
      reads this
    {
      v in interfaces && interfaces[v] in rinterfaces && rinterfaces[interfaces[v]] == v
    }
  }
}
