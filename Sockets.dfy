/** The operating system's descriptor table, reduced to what ownership needs:
    which open socket descriptor belongs to which object. */
module Sockets {

  class Kernel {
    /** Open descriptors and the object that is responsible for closing each. */
    ghost var owner: map<int, object>

    constructor ()
      ensures owner == map[]
    {
      owner := map[];
    }

    /** A successful `socket` call hands a fresh descriptor to `who`. */
    ghost method Open(fd: int, who: object)
      requires fd >= 0 && fd !in owner
      modifies this
      ensures owner == old(owner)[fd := who]
    {
      owner := owner[fd := who];
    }

    /** `close(fd)`. Closing -1 fails harmlessly; any other descriptor must be
        open and belong to the caller, so no descriptor is closed twice and
        no object closes a descriptor it does not own. */
    method Close(fd: int, ghost who: object)
      requires fd < 0 || (fd in owner && owner[fd] == who)
      modifies this
      ensures owner == if fd < 0 then old(owner) else old(owner) - {fd}
    {
      if fd >= 0 {
        owner := owner - {fd};
      }
    }

    /** Responsibility for an open descriptor passes from one object to another. */
    ghost method Transfer(fd: int, from: object, to: object)
      requires fd in owner && owner[fd] == from
      modifies this
      ensures owner == old(owner)[fd := to]
    {
      owner := owner[fd := to];
    }
  }
}
