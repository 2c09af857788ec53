/** The poll list as the daemon stores it: an allocated array of which the first slots are in use. */
module PollLists {
  /** A slot of the poll list; `ready` is whether its event flags are non-zero. */
  datatype PollFd = PollFd(fd: int, ready: bool)

  class PollList {
    var slots: array<PollFd>
    var len: nat
    ghost var polls: seq<PollFd>

    ghost predicate Valid()
      reads this, slots
    {
      && len == |polls| <= slots.Length
      && forall i | 0 <= i < |polls| :: slots[i] == polls[i]
    }

    constructor ()
      ensures Valid() && fresh(slots) && polls == [] && slots.Length == 0
    {
      slots := new PollFd[0];
      len := 0;
      polls := [];
    }

    /**
     * Reallocate to exactly the new length and fill the last slot. The event flags of that slot are
     * left as they come.
     */
    method AppendFd(fd: int, flags: bool)
      requires Valid()
      modifies this
      ensures Valid() && fresh(slots)
      ensures polls == old(polls) + [PollFd(fd, flags)] && slots[..len] == old(slots[..len]) + [PollFd(fd, flags)]
      ensures slots.Length == len
    {
      len := len + 1;
      var bigger := new PollFd[len](_ => PollFd(fd, flags));
      forall i | 0 <= i < len - 1 {
        bigger[i] := slots[i];
      }
      bigger[len - 1] := PollFd(fd, flags);
      slots := bigger;
      polls := polls + [PollFd(fd, flags)];
      assert slots[..len] == polls;
    }

    /** Move the live slots behind the removed one down by one; what was allocated stays allocated. */
    method Collapse(idx: nat)
      requires Valid() && idx < len
      modifies this`len, this`polls, slots
      ensures Valid() && len == old(len) - 1
      ensures slots[..len] == old(slots[..idx]) + old(slots[idx + 1..len])
      ensures polls == old(polls)[..idx] + old(polls)[idx + 1..]
    {
      ghost var was := polls;
      forall i | idx <= i < len - 1 {
        slots[i] := slots[i + 1];
      }
      len := len - 1;
      polls := polls[..idx] + polls[idx + 1..];
      forall i | 0 <= i < len
        ensures slots[i] == polls[i] == was[if i < idx then i else i + 1]
      {
      }
    }
  }
}
