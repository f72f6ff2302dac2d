// The epoll calls of src/ez_epoll.c against an interest map that stands for the
// kernel's side.

module Epoll {

  const AE_OK := 0
  const AE_ERR := -1
  const AE_NONE: bv32 := 0
  const AE_READABLE: bv32 := 1
  const AE_WRITABLE: bv32 := 2
  const EPOLLIN: bv32 := 1
  const EPOLLOUT: bv32 := 4

  datatype CtlOp = CtlAdd | CtlMod | CtlDel

  // The events asked for with a mask.
  function Events(mask: bv32): bv32 {
    (if mask & AE_READABLE != 0 then EPOLLIN else 0) | (if mask & AE_WRITABLE != 0 then EPOLLOUT else 0)
  }

  // Masks as sets of events.
  function Union(a: bv32, b: bv32): bv32 {
    a | b
  }

  function Minus(a: bv32, b: bv32): bv32 {
    a & !b
  }

  lemma UnionLaws(a: bv32, b: bv32)
    ensures Union(a, b) == Union(b, a) && Union(a, AE_NONE) == a
    ensures a != AE_NONE ==> Union(a, b) != AE_NONE
  {
  }

  lemma MinusSelf(a: bv32)
    ensures Minus(a, a) == AE_NONE
  {
  }

  // A union has all that one of its parts has.
  lemma MinusUnion(a: bv32, b: bv32, c: bv32)
    requires Minus(a, b) == AE_NONE
    ensures Minus(a, Union(b, c)) == AE_NONE
  {
  }

  // One event of a mask.
  predicate Has(mask: bv32, n: bv32)
    requires n < 32
  {
    (mask >> n) & 1 == 1
  }

  // Uniting and taking away, event by event.
  lemma UnionHas(a: bv32, b: bv32, n: bv32)
    requires n < 32
    ensures Has(Union(a, b), n) <==> Has(a, n) || Has(b, n)
  {
  }

  lemma MinusHas(a: bv32, b: bv32, n: bv32)
    requires n < 32
    ensures Has(Minus(a, b), n) <==> Has(a, n) && !Has(b, n)
  {
  }

  lemma NoneHas(n: bv32)
    requires n < 32
    ensures !Has(AE_NONE, n)
  {
  }

  // Taking away undoes uniting where there is nothing in common.
  lemma MinusUndo(a: bv32, b: bv32)
    requires a & b == 0
    ensures Minus(Union(a, b), b) == a
  {
  }

  // The kernel is asked for EPOLLIN, which is 1, and EPOLLOUT, which is 4, exactly
  // as the mask has AE_READABLE, which is 1, and AE_WRITABLE, which is 2.
  lemma EventsExactly(mask: bv32)
    ensures Events(mask) & 1 == 1 <==> mask & 1 == 1
    ensures Events(mask) & 4 == 4 <==> mask & 2 == 2
    ensures Events(mask) & !5 == 0
  {
  }

  // An epoll instance. Adding a known descriptor and changing or deleting an
  // unknown one are errors; `misuses` counts them. The kernel may refuse to add or
  // change for reasons of its own.
  class Instance {
    var interest: map<int, bv32>
    ghost var misuses: nat

    constructor ()
      ensures interest == map[] && misuses == 0
    {
      interest, misuses := map[], 0;
    }

    method Ctl(op: CtlOp, fd: int, events: bv32, refused: bool) returns (rc: int)
      modifies this
      ensures misuses == old(misuses) + (if op.CtlAdd? == (fd in old(interest)) then 1 else 0)
      ensures rc == if refused || op.CtlAdd? == (fd in old(interest)) then -1 else 0
      ensures interest ==
        if rc == -1 then old(interest) else if op.CtlDel? then old(interest) - {fd} else old(interest)[fd := events]
    {
      rc := 0;
      if op.CtlAdd? == (fd in interest) {
        rc := -1;
        misuses := misuses + 1;
      } else if refused {
        rc := -1;
      } else if op.CtlDel? {
        interest := interest - {fd};
      } else {
        interest := interest[fd := events];
      }
    }

    // ezApiAddEvent: the old mask decides between adding and changing.
    method AddEvent(fd: int, mask: bv32, oldMask: bv32, refused: bool) returns (rc: int)
      modifies this
      ensures misuses == old(misuses) + if (oldMask == AE_NONE) == (fd in old(interest)) then 1 else 0
      ensures rc == if refused || (oldMask == AE_NONE) == (fd in old(interest)) then -1 else AE_OK
      ensures interest == if rc == -1 then old(interest) else old(interest)[fd := Events(Union(mask, oldMask))]
    {
      var op := if oldMask == AE_NONE then CtlAdd else CtlMod;
      var events: bv32 := 0;
      var merged := mask | oldMask;
      if merged & AE_READABLE != 0 {
        events := events | EPOLLIN;
      }
      if merged & AE_WRITABLE != 0 {
        events := events | EPOLLOUT;
      }
      rc := Ctl(op, fd, events, refused);
      if rc == -1 {
        return -1;
      }
      return AE_OK;
    }

    // ezApiDelEvent; the answer of the kernel is not looked at.
    method DelEvent(fd: int, delMask: bv32, oldMask: bv32)
      modifies this
      ensures misuses == old(misuses) + if fd in old(interest) then 0 else 1
      ensures interest ==
        if fd !in old(interest) then old(interest)
        else if Minus(oldMask, delMask) == AE_NONE then old(interest) - {fd}
        else old(interest)[fd := Events(Minus(oldMask, delMask))]
    {
      var mask := oldMask & !delMask;
      var events: bv32 := 0;
      if mask & AE_READABLE != 0 {
        events := events | EPOLLIN;
      }
      if mask & AE_WRITABLE != 0 {
        events := events | EPOLLOUT;
      }
      if mask != AE_NONE {
        var _ := Ctl(CtlMod, fd, events, false);
      } else {
        var _ := Ctl(CtlDel, fd, events, false);
      }
    }
  }
}
