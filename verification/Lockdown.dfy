/**
 The table that keeps actors from being interpolated for some frames. An actor may
 stand in it several times; together its entries act as one counter.
 */
module Lockdown {
  import opened Common

  const SIZE: nat := 16

  type Actor = int

  datatype Slot = Slot(actor: Actor, value: nat, used: bool)

  // ---- The map the table stands for

  /** Frames left for an actor: the largest count among its used entries. */
  function FramesLeft(t: seq<Slot>, a: Actor): nat {
    if t == [] then 0
    else Max(FramesLeft(t[..|t| - 1], a), Own(t[|t| - 1], a))
  }

  function Own(s: Slot, a: Actor): nat {
    if s.used && s.actor == a then s.value else 0
  }

  /** One entry more. */
  lemma FramesPush(t: seq<Slot>, s: Slot, a: Actor)
    ensures FramesLeft(t + [s], a) == Max(FramesLeft(t, a), Own(s, a))
  {
    assert (t + [s])[..|t|] == t;
  }

  lemma {:induction false} FramesAppend(t: seq<Slot>, u: seq<Slot>, a: Actor)
    ensures FramesLeft(t + u, a) == Max(FramesLeft(t, a), FramesLeft(u, a))
  {
    if u == [] {
      assert t + u == t;
    } else {
      var u', s := u[..|u| - 1], u[|u| - 1];
      FramesAppend(t, u', a);
      FramesPush(t + u', s, a);
      assert t + u' + [s] == t + u;
    }
  }

  /** Replacing one entry replaces its share. */
  lemma FramesSplit(t: seq<Slot>, i: nat, s: Slot, a: Actor)
    requires i < |t|
    ensures FramesLeft(t, a) == Max(Max(FramesLeft(t[..i], a), Own(t[i], a)), FramesLeft(t[i + 1..], a))
    ensures FramesLeft(t[i := s], a) == Max(Max(FramesLeft(t[..i], a), Own(s, a)), FramesLeft(t[i + 1..], a))
  {
    FramesPush(t[..i], t[i], a);
    FramesAppend(t[..i] + [t[i]], t[i + 1..], a);
    assert t == t[..i] + [t[i]] + t[i + 1..];
    FramesPush(t[..i], s, a);
    FramesAppend(t[..i] + [s], t[i + 1..], a);
    assert t[i := s] == t[..i] + [s] + t[i + 1..];
  }

  /** A set is lost exactly when no entry is free and none is the actor's. */
  predicate Full(t: seq<Slot>, a: Actor) {
    forall i :: 0 <= i < |t| ==> t[i].used && t[i].actor != a
  }

  /** What setting `value` at slot `i` makes of it. */
  function SetSlot(s: Slot, a: Actor, value: nat): Slot {
    if !s.used then Slot(a, value, true) else if s.value < value then s.(value := value) else s
  }

  /** Setting an actor's count at a slot that is its own or free takes the maximum, for it alone. */
  lemma SetTakesMaximum(t: seq<Slot>, i: nat, a: Actor, value: nat, b: Actor)
    requires i < |t| && (t[i].actor == a || !t[i].used)
    ensures var t' := t[i := SetSlot(t[i], a, value)];
      FramesLeft(t', b) == if b == a then Max(FramesLeft(t, a), value) else FramesLeft(t, b)
  {
    FramesSplit(t, i, SetSlot(t[i], a, value), b);
    hide FramesLeft;
  }

  /** What one draw of actor `a` makes of a slot. */
  function DrawSlot(s: Slot, a: Actor): Slot {
    if s.used && s.actor == a then
      var value := if s.value > 0 then s.value - 1 else 0;
      Slot(a, value, value != 0)
    else s
  }

  function DrawAll(t: seq<Slot>, a: Actor): (u: seq<Slot>)
    ensures |u| == |t| && forall i :: 0 <= i < |t| ==> u[i] == DrawSlot(t[i], a)
  {
    seq(|t|, i requires 0 <= i < |t| => DrawSlot(t[i], a))
  }

  /** A draw lowers the actor's count by one, over all its entries, and nobody else's. */
  lemma {:induction false} DrawLowersByOne(t: seq<Slot>, a: Actor, b: Actor)
    ensures FramesLeft(DrawAll(t, a), b)
         == if b == a then (if FramesLeft(t, a) > 0 then FramesLeft(t, a) - 1 else 0) else FramesLeft(t, b)
  {
    if t == [] {
    } else {
      DrawLowersByOne(t[..|t| - 1], a, b);
      assert DrawAll(t, a)[..|t| - 1] == DrawAll(t[..|t| - 1], a);
    }
  }

  /** The count is positive exactly when some entry of the actor is. */
  lemma {:induction false} PositiveIff(t: seq<Slot>, a: Actor)
    ensures FramesLeft(t, a) > 0 <==> exists i :: 0 <= i < |t| && Own(t[i], a) > 0
  {
    if t == [] {
    } else {
      var t' := t[..|t| - 1];
      PositiveIff(t', a);
      assert forall i :: 0 <= i < |t'| ==> t'[i] == t[i];
      if FramesLeft(t', a) > 0 {
        var i :| 0 <= i < |t'| && Own(t'[i], a) > 0;
        assert Own(t[i], a) > 0;
      }
    }
  }

  // ---- The three operations

  datatype Op = SetOp(actor: Actor, value: nat) | DrawOp(actor: Actor) | ClearOp

  /** The first slot that is the actor's or free. */
  function Place(t: seq<Slot>, a: Actor): (i: nat)
    requires !Full(t, a)
    ensures i < |t| && (t[i].actor == a || !t[i].used)
    ensures forall j :: 0 <= j < i ==> t[j].used && t[j].actor != a
  {
    if t[0].actor == a || !t[0].used then 0
    else
      assert !Full(t[1..], a) by {
        var i :| 0 <= i < |t| && !(t[i].used && t[i].actor != a);
        assert t[1..][i - 1] == t[i];
      }
      1 + Place(t[1..], a)
  }

  function Apply(t: seq<Slot>, op: Op): seq<Slot> {
    match op
    case SetOp(a, value) =>
      if Full(t, a) then t else t[Place(t, a) := SetSlot(t[Place(t, a)], a, value)]
    case DrawOp(a) => DrawAll(t, a)
    case ClearOp => seq(|t|, i requires 0 <= i < |t| => t[i].(used := false))
  }

  /** Only actor `a`'s count differs between two tables, and it is now `n`. */
  ghost predicate SetTo(t: seq<Slot>, u: seq<Slot>, a: Actor, n: nat) {
    forall b :: FramesLeft(u, b) == if b == a then n else FramesLeft(t, b)
  }

  lemma {:induction false} FirstPlace(t: seq<Slot>, a: Actor, i: nat)
    requires i < |t| && (t[i].actor == a || !t[i].used)
    requires forall j :: 0 <= j < i ==> t[j].used && t[j].actor != a
    ensures !Full(t, a) && Place(t, a) == i
  {
  }

  // ---- The table

  class Table {
    const slots: array<Slot>

    ghost predicate Valid() {
      slots.Length == SIZE
    }

    constructor ()
      ensures Valid() && fresh(slots) && slots.Length == 16
      ensures forall a :: FramesLeft(slots[..], a) == 0
    {
      slots := new Slot[SIZE](_ => Slot(0, 0, false));
      new;
      forall a ensures FramesLeft(slots[..], a) == 0 {
        NoneUsed(slots[..], a);
      }
    }

    /** `set_actor_interpolation_lockdown`. */
    method Set(a: Actor, value: nat)
      requires Valid() && value <= 0xffff
      modifies slots
      ensures slots[..] == Apply(old(slots[..]), SetOp(a, value))
      ensures Full(old(slots[..]), a) ==> slots[..] == old(slots[..])
      ensures !Full(old(slots[..]), a) ==>
        SetTo(old(slots[..]), slots[..], a, Max(FramesLeft(old(slots[..]), a), value))
    {
      ghost var t := slots[..];
      var i := 0;
      while i < SIZE
        invariant i <= SIZE && slots[..] == t
        invariant forall j :: 0 <= j < i ==> t[j].used && t[j].actor != a
      {
        var ld := slots[i];
        assert ld == t[i];
        if ld.actor == a || !ld.used {
          forall b ensures FramesLeft(t[i := SetSlot(t[i], a, value)], b)
                        == if b == a then Max(FramesLeft(t, a), value) else FramesLeft(t, b) {
            SetTakesMaximum(t, i, a, value, b);
          }
          FirstPlace(t, a, i);
          if !ld.used {
            slots[i] := Slot(a, value, true);
          } else if ld.value < value {
            slots[i] := ld.(value := value);
          }
          assert slots[..] == t[i := SetSlot(t[i], a, value)];
          return;
        }
        i := i + 1;
      }
    }

    /** `clear_actor_interpolation_lockdowns`. */
    method Clear()
      requires Valid()
      modifies slots
      ensures slots[..] == Apply(old(slots[..]), ClearOp)
      ensures forall a :: FramesLeft(slots[..], a) == 0
    {
      var i := 0;
      while i < SIZE
        invariant i <= SIZE
        invariant forall j :: 0 <= j < i ==> slots[j] == old(slots[j]).(used := false)
        invariant forall j :: i <= j < SIZE ==> slots[j] == old(slots[j])
      {
        slots[i] := slots[i].(used := false);
        i := i + 1;
      }
      forall a ensures FramesLeft(slots[..], a) == 0 {
        NoneUsed(slots[..], a);
      }
    }

    /** The lockdown loop of the actor drawing routine: whether this draw skips interpolation. */
    method Draw(a: Actor) returns (skip: bool)
      requires Valid()
      modifies slots
      ensures slots[..] == Apply(old(slots[..]), DrawOp(a))
      ensures skip <==> FramesLeft(old(slots[..]), a) > 0
      ensures SetTo(old(slots[..]), slots[..], a, if skip then FramesLeft(old(slots[..]), a) - 1 else 0)
    {
      ghost var t := slots[..];
      skip := false;
      var i := 0;
      while i < SIZE
        invariant i <= SIZE
        invariant forall j :: 0 <= j < i ==> slots[j] == DrawSlot(t[j], a)
        invariant forall j :: i <= j < SIZE ==> slots[j] == t[j]
        invariant skip <==> exists j :: 0 <= j < i && Own(t[j], a) > 0
      {
        if slots[i].used && slots[i].actor == a {
          if slots[i].value > 0 {
            skip := true;
            assert Own(t[i], a) > 0;
            slots[i] := slots[i].(value := slots[i].value - 1);
          }
          if slots[i].value == 0 {
            slots[i] := slots[i].(used := false);
          }
        }
        i := i + 1;
      }
      PositiveIff(t, a);
      assert slots[..] == DrawAll(t, a);
      forall b ensures FramesLeft(slots[..], b)
                    == if b == a then (if FramesLeft(t, a) > 0 then FramesLeft(t, a) - 1 else 0) else FramesLeft(t, b) {
        DrawLowersByOne(t, a, b);
      }
    }
  }

  lemma {:induction false} NoneUsed(t: seq<Slot>, a: Actor)
    requires forall i :: 0 <= i < |t| ==> !t[i].used
    ensures FramesLeft(t, a) == 0
  {
    if t == [] {
    } else {
      NoneUsed(t[..|t| - 1], a);
    }
  }

  // ---- Over whole runs

  function Run(t: seq<Slot>, ops: seq<Op>): seq<Slot> {
    if ops == [] then t else Apply(Run(t, ops[..|ops| - 1]), ops[|ops| - 1])
  }

  /** A plain counter for actor `a`, which only misses the sets that a full table has lost. */
  function Counter(t: seq<Slot>, ops: seq<Op>, a: Actor): nat {
    if ops == [] then 0
    else
      var ops', before := ops[..|ops| - 1], Counter(t, ops[..|ops| - 1], a);
      match ops[|ops| - 1]
      case SetOp(b, value) => if b == a && !Full(Run(t, ops'), a) then Max(before, value) else before
      case DrawOp(b) => if b == a && before > 0 then before - 1 else before
      case ClearOp => 0
  }

  /** Over every run the table holds for every actor just what its plain counter would. */
  lemma {:induction false} TableRefinesMap(t: seq<Slot>, ops: seq<Op>, a: Actor)
    requires forall i :: 0 <= i < |t| ==> !t[i].used
    ensures FramesLeft(Run(t, ops), a) == Counter(t, ops, a)
  {
    if ops == [] {
      NoneUsed(t, a);
    } else {
      var before, op := ops[..|ops| - 1], ops[|ops| - 1];
      TableRefinesMap(t, before, a);
      var u := Run(t, before);
      match op
      case SetOp(b, value) =>
        if !Full(u, b) {
          SetTakesMaximum(u, Place(u, b), b, value, a);
        }
      case DrawOp(b) => DrawLowersByOne(u, b, a);
      case ClearOp => NoneUsed(Apply(u, op), a);
    }
  }
}
