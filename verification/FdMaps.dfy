/** The file descriptor record of fdmap.h and the editing of its parent array.

    A record (fd_map) is shared by every descriptor that was duplicated from the same open. It
    remembers the numbers of those descriptors in a fixed array of MAX_PARENT_IDS slots: the used
    slots come first, the rest hold -1, and `last` is the index of the last used slot. */
module FdMaps {
  import opened Options

  const MAX_PARENT_IDS: nat := 20
  const FREE_SLOT := -1

  /** What stops the program: a failed assert, or a read of memory that is NULL or freed. */
  datatype Fault =
    | NegativeKey      // ht_hash_int asserts that its key is not negative
    | NullTable        // a copying clone of a process without a table
    | DuplicateParent  // insert_parent_fd found the descriptor already recorded
    | MissingParent    // delete_parent_fd did not find the descriptor
    | MissingUsage     // decrease_fd_usage did not find the descriptor
    | Dangling         // a record or an entry is used after it was freed

  datatype Outcome<+T> = Ok(value: T) | Abort(fault: Fault) {
    predicate IsFailure() {
      Abort?
    }

    function PropagateFailure<U>(): Outcome<U>
      requires Abort?
    {
      Abort(fault)
    }

    function Extract(): T
      requires Ok?
    {
      value
    }
  }

  datatype FileType = Regular | Directory | Ignored | Special | Socket | Fifo

  /** Only regular files and directories take part in counting and positioning. */
  predicate Supported(t: FileType) {
    t.Regular? || t.Directory?
  }

  datatype Slots = Slots(ids: seq<int>, last: int)

  predicate WellFormed(p: Slots) {
    && |p.ids| == MAX_PARENT_IDS
    && -1 <= p.last < MAX_PARENT_IDS
    && (forall i :: 0 <= i <= p.last ==> p.ids[i] >= 0)
    && (forall i :: p.last < i < MAX_PARENT_IDS ==> p.ids[i] == FREE_SLOT)
    && (forall i, j :: 0 <= i < j <= p.last ==> p.ids[i] != p.ids[j])
  }

  const EMPTY_SLOTS :=
    Slots([-1, -1, -1, -1, -1, -1, -1, -1, -1, -1, -1, -1, -1, -1, -1, -1, -1, -1, -1, -1], -1)

  type ParentArray = p: Slots | WellFormed(p) witness EMPTY_SLOTS

  /** The descriptors recorded in the array. */
  function Parents(p: ParentArray): (ps: set<int>)
    ensures forall fd :: fd in ps ==> fd >= 0
  {
    set i | 0 <= i <= p.last :: p.ids[i]
  }

  predicate Full(p: ParentArray) {
    p.last == MAX_PARENT_IDS - 1
  }

  datatype FdMap = FdMap(myFd: int, ftype: FileType, curPos: nat, name: string, parents: ParentArray)

  function ScanFrom(ids: seq<int>, fd: int, i: nat): (r: nat)
    requires i <= |ids|
    ensures i <= r <= |ids|
    ensures forall j :: i <= j < r ==> ids[j] != fd && ids[j] != FREE_SLOT
    ensures r < |ids| ==> ids[r] == fd || ids[r] == FREE_SLOT
    decreases |ids| - i
  {
    if i == |ids| || ids[i] == fd || ids[i] == FREE_SLOT then i else ScanFrom(ids, fd, i + 1)
  }

  /** The slot where both scans stop: the first one that holds fd or is free. */
  function Stop(p: ParentArray, fd: int): (i: nat)
    requires fd >= 0
    ensures i <= MAX_PARENT_IDS
    ensures fd in Parents(p) ==> i <= p.last && p.ids[i] == fd
    ensures fd !in Parents(p) ==> i == p.last + 1
  {
    assert forall j :: 0 <= j <= p.last ==> p.ids[j] in Parents(p);
    assert !Full(p) ==> p.ids[p.last + 1] == FREE_SLOT;
    ScanFrom(p.ids, fd, 0)
  }

  function Appended(p: Slots, fd: int): Slots
    requires |p.ids| == MAX_PARENT_IDS && -1 <= p.last < MAX_PARENT_IDS - 1
  {
    Slots(p.ids[p.last + 1 := fd], p.last + 1)
  }

  lemma AppendedParents(p: ParentArray, fd: int)
    requires fd >= 0 && fd !in Parents(p) && !Full(p)
    ensures WellFormed(Appended(p, fd)) && Parents(Appended(p, fd)) == Parents(p) + {fd}
  {
    var r := Appended(p, fd);
    assert forall i :: 0 <= i <= p.last ==> r.ids[i] == p.ids[i] && p.ids[i] in Parents(p);
    assert r.ids[r.last] == fd;
    forall x | x in Parents(p) ensures x in Parents(r) {
      var i :| 0 <= i <= p.last && p.ids[i] == x;
      assert r.ids[i] == x;
    }
  }

  /** What insert_parent_fd leaves in the array. */
  function WithParent(p: ParentArray, fd: int): (r: Outcome<ParentArray>)
    requires fd >= 0
    ensures r.Abort? <==> fd in Parents(p)
    ensures r.Ok? ==> Parents(r.value) == if Full(p) then Parents(p) else Parents(p) + {fd}
    ensures r.Ok? && !Full(p) ==> r.value.last == p.last + 1
  {
    if fd in Parents(p) then Abort(DuplicateParent)
    else if Full(p) then Ok(p)
    else
      AppendedParents(p, fd);
      Ok(Appended(p, fd))
  }

  /** The array of a new record after its first insertion. */
  function OnlyParent(fd: int): (r: ParentArray)
    requires fd >= 0
    ensures Parents(r) == {fd} && r.last == 0
    ensures WithParent(EMPTY_SLOTS, fd) == Ok(r)
  {
    WithParent(EMPTY_SLOTS, fd).value
  }

  function Removed(p: ParentArray, fd: int): Slots
    requires fd in Parents(p)
  {
    Slots(p.ids[Stop(p, fd) := p.ids[p.last]][p.last := FREE_SLOT], p.last - 1)
  }

  lemma RemovedParents(p: ParentArray, fd: int)
    requires fd in Parents(p)
    ensures WellFormed(Removed(p, fd)) && Parents(Removed(p, fd)) == Parents(p) - {fd}
  {
    var i, r := Stop(p, fd), Removed(p, fd);
    forall x | x in Parents(p) - {fd} ensures x in Parents(r) {
      var j :| 0 <= j <= p.last && p.ids[j] == x;
      assert r.ids[if j == p.last then i else j] == x;
    }
    forall x | x in Parents(r) ensures x in Parents(p) - {fd} {
      var j :| 0 <= j <= r.last && r.ids[j] == x;
      assert p.ids[if j == i then p.last else j] == x;
    }
  }

  /** What delete_parent_fd leaves in the array: the last used slot moves into the freed one. */
  function WithoutParent(p: ParentArray, fd: int): (r: Outcome<ParentArray>)
    requires fd >= 0
    ensures r.Abort? <==> fd !in Parents(p) && !Full(p)
    ensures r.Ok? ==> Parents(r.value) == Parents(p) - {fd}
    ensures r.Ok? && fd in Parents(p) ==> r.value.last == p.last - 1
  {
    if fd in Parents(p) then
      RemovedParents(p, fd);
      Ok(Removed(p, fd))
    else if Full(p) then Ok(p)
    else Abort(MissingParent)
  }

  /** The record has no descriptor left exactly when its last index is back at -1. */
  lemma NoParentsLeft(p: ParentArray)
    ensures p.last == -1 <==> Parents(p) == {}
  {
    if p.last != -1 {
      assert p.ids[p.last] in Parents(p);
    }
  }

  /** Records fd in the first free slot; asserts that it is not recorded yet; drops it when full.
      The result is the new last index. */
  method InsertParentFd(parents: array<int>, last: int, fd: int) returns (r: Outcome<int>)
    requires WellFormed(Slots(parents[..], last)) && fd >= 0
    modifies parents
    ensures match WithParent(Slots(old(parents[..]), last), fd)
            case Abort(f) => r == Abort(f) && parents[..] == old(parents[..])
            case Ok(q) => r == Ok(q.last) && parents[..] == q.ids
  {
    ghost var p: ParentArray := Slots(parents[..], last);
    var index := -1;
    for i := 0 to MAX_PARENT_IDS
      invariant index == -1 && i <= Stop(p, fd)
      invariant parents[..] == p.ids
    {
      if parents[i] == fd {
        assert i <= last;
        return Abort(DuplicateParent);
      }
      if parents[i] == FREE_SLOT {
        index := i;
        break;
      }
    }
    if index != -1 {
      parents[index] := fd;
      r := Ok(last + 1);
    } else {
      r := Ok(last);
    }
  }

  /** Forgets fd: its slot takes the last used one. The result is the new last index; the record
      lost its last parent when that is -1. */
  method DeleteParentFd(parents: array<int>, last: int, fd: int) returns (r: Outcome<int>)
    requires WellFormed(Slots(parents[..], last)) && fd >= 0
    modifies parents
    ensures match WithoutParent(Slots(old(parents[..]), last), fd)
            case Abort(f) => r == Abort(f) && parents[..] == old(parents[..])
            case Ok(q) => r == Ok(q.last) && parents[..] == q.ids
  {
    ghost var p: ParentArray := Slots(parents[..], last);
    for i := 0 to MAX_PARENT_IDS
      invariant i <= Stop(p, fd)
      invariant parents[..] == p.ids
    {
      if parents[i] == fd {
        assert i <= last;
        if i == last {
          parents[i] := FREE_SLOT;
        } else if last > 0 {
          parents[i] := parents[last];
          parents[last] := FREE_SLOT;
        } else {
          assert false;
        }
        return Ok(last - 1);
      }
      if parents[i] == FREE_SLOT {
        return Abort(MissingParent);
      }
    }
    r := Ok(last);
  }
}
