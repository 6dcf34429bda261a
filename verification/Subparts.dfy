/**
 The CPUs that a cpuset lends to partition roots among its children (cpuset.c,
 update_parent_subparts_cpumask and update_prstate).
*/
module Subparts {
  import opened CgroupTree

  type Mask = set<nat>

  datatype State = Disabled | Enabled | Error

  datatype Cmd = Enable | Disable | Update

  /** The answer: whether masks have changed on an update, or an error code, Refused being one from elsewhere. */
  datatype Answer = Done | Changed | Inval | Busy | Refused(err: nat)

  /** What the functions look at in the child cpuset. */
  datatype Child = Child(cpusAllowed: Mask, state: State, onlineChildren: bool, cpuExclusive: bool)

  /** No active CPU leaves the two masks, and none appears. */
  ghost predicate UnionKept(active: Mask, e: Mask, s: Mask, e': Mask, s': Mask) {
    (e' + s') * active == (e + s) * active && e' + s' <= e + s
  }

  /** The masks after lending add and taking back del; only active CPUs come back. */
  ghost predicate Moved(active: Mask, e: Mask, s: Mask, add: Mask, del: Mask, e': Mask, s': Mask) {
    e' == (e - add) + del * active && s' == (s + add) - del
  }

  /** Disjoint, the effective one not empty. */
  ghost predicate Sound(e: Mask, s: Mask) {
    e * s == {} && e != {}
  }

  /** Only what is there moves, and not everything without an active CPU in return. */
  ghost predicate CanMove(active: Mask, e: Mask, s: Mask, add: Mask, del: Mask) {
    add <= e && del <= s && (add == e ==> del * active != {})
  }

  lemma OneWay(active: Mask, e: Mask, s: Mask)
    ensures Moved(active, e, s, {}, {}, e, s)
  {}

  /** Lending add and taking back del keeps the masks disjoint, the effective one non-empty and the active CPUs in their union. */
  lemma MoveKeeps(active: Mask, e: Mask, s: Mask, add: Mask, del: Mask, e': Mask, s': Mask)
    requires Sound(e, s) && CanMove(active, e, s, add, del) && Moved(active, e, s, add, del, e', s')
    ensures Sound(e', s') && UnionKept(active, e, s, e', s')
  {
    if add != e {
      var c :| c in e && c !in add;
      assert c in e';
    } else {
      var c :| c in del * active;
      assert c in e';
    }
    forall c | c in e' ensures c !in s' {
      assert c in e && c in s ==> c in e * s;
    }
    forall c | c in active ensures c in e' + s' <==> c in e + s {}
    assert (e' + s') * active == (e + s) * active;
  }

  /** Lending a and taking it back, when later is active: only its CPUs that are active then return. */
  lemma RoundTrip(active: Mask, later: Mask, e: Mask, s: Mask, a: Mask)
    requires e * s == {} && a <= e
    ensures forall e1, s1, e2, s2 {:trigger Moved(active, e, s, a, {}, e1, s1), Moved(later, e1, s1, {}, a * s1, e2, s2)} |
      Moved(active, e, s, a, {}, e1, s1) && Moved(later, e1, s1, {}, a * s1, e2, s2) ::
        s2 == s && e2 == e - (a - later) && (e2 == e <==> a <= later)
  {
    forall c | c in s ensures c !in a { assert c in e ==> c in e * s; }
    assert (s + a) - a * (s + a) == s;
    var back := (e - a) + a * (s + a) * later;
    assert back == e - (a - later);
    if a <= later {
      assert back == e;
    } else {
      var c :| c in a && c !in later;
      assert c in e && c !in back;
    }
  }

  /** The CPUs that are lent to the child. */
  ghost function Lent(cs: Child, subparts: Mask): Mask {
    cs.cpusAllowed * subparts
  }

  /** Whether a child may become a partition root, or cease to be one. */
  ghost function Verdict(parentIsRoot: bool, effective: Mask, cs: Child, cmd: Cmd): Answer {
    if !parentIsRoot || cs.cpusAllowed == {} then Inval
    else if cs.onlineChildren then Busy
    else if cmd.Enable? && !(cs.cpusAllowed < effective) then Inval
    else Done
  }

  /**
   What an update comes to: the child's state, the CPUs lent to it and those taken back. A
   child is in error when it would get all of the parent's CPUs; it keeps what it has when
   the error is new and gives it back when the error was there before.
  */
  ghost function Wanted(cs: Child, newmask: Option<Mask>, effective: Mask, subparts: Mask): (State, Mask, Mask) {
    match newmask
    case Some(m) => (Enabled, (m * effective) - subparts, (cs.cpusAllowed - m) * subparts)
    case None =>
      if cs.cpusAllowed * effective != effective then (Enabled, cs.cpusAllowed * effective, {})
      else if cs.state == Enabled then (Error, {}, {})
      else (Error, {}, cs.cpusAllowed * subparts)
  }

  /**
   When an update is refused: the parent is no partition root, the mask in question is
   empty, or the new mask would take all effective CPUs and the child gives up no active one.
  */
  ghost predicate UpdateRefused(parentIsRoot: bool, active: Mask, effective: Mask, subparts: Mask, cs: Child, newmask: Option<Mask>) {
    || !parentIsRoot
    || match newmask
       case None => cs.cpusAllowed == {}
       case Some(m) => m == {} || (effective <= m && forall c | c in cs.cpusAllowed && c in subparts && c in active :: c in m)
  }

  /** The answer to a child that asks for state val. */
  ghost function StateAnswer(parentIsRoot: bool, effective: Mask, cs: Child, val: int, flagError: Option<nat>): Answer {
    if val != 0 && val != 1 then Inval
    else match cs.state
      case Disabled =>
        if val == 0 then Done
        else if flagError.Some? && cs.cpusAllowed != {} then Refused(flagError.value)
        else Verdict(parentIsRoot, effective, cs, Enable)
      case Enabled => if val == 1 then Done else Verdict(parentIsRoot, effective, cs, Disable)
      case Error => if val == 0 then Done else Inval
  }

  /** What moves is not empty exactly if subparts_cpus changes. */
  lemma MoveShows(active: Mask, e: Mask, s: Mask, add: Mask, del: Mask, e': Mask, s': Mask)
    requires Sound(e, s) && CanMove(active, e, s, add, del) && Moved(active, e, s, add, del, e', s')
    ensures s' == s <==> add == {} && del == {}
    ensures s' == s ==> e' == e
  {
    forall c | c in add ensures c in s' && c !in s {
      assert c in s ==> c in e * s;
    }
    forall c | c in del ensures c in s && c !in s' {}
  }

  class Parent {
    var active: Mask                // cpu_active_mask
    var isPartitionRoot: bool
    var effective: Mask             // effective_cpus
    var subparts: Mask              // subparts_cpus
    var nrSubparts: nat             // nr_subparts_cpus

    ghost predicate Valid()
      reads this
    {
      Sound(effective, subparts) && nrSubparts == |subparts|
    }

    constructor (active: Mask, effective: Mask, subparts: Mask)
      requires effective != {} && effective * subparts == {}
      ensures Valid() && this.active == active && this.effective == effective && this.subparts == subparts && isPartitionRoot
    {
      this.active, isPartitionRoot, this.effective, this.subparts, nrSubparts := active, true, effective, subparts, |subparts|;
    }

    /** The cpumask changes that a command asks for, as (addmask, delmask), or None for an error. */
    function Requested(cs: Child, cmd: Cmd, newmask: Option<Mask>): (r: Option<(Mask, Mask)>)
      requires newmask.Some? ==> cmd.Update?
      reads this
    {
      match cmd
      case Enable =>
        if !(cs.cpusAllowed <= effective) || cs.cpusAllowed == effective then None else Some((cs.cpusAllowed, {}))
      case Disable => Some(({}, cs.cpusAllowed * subparts))
      case Update =>
        if newmask.Some? then
          var del := (cs.cpusAllowed - newmask.value) * subparts;
          var add := (newmask.value * effective) - subparts;
          // the new effective_cpus must not become empty
          if add != {} && effective == add && del * active == {} then None else Some((add, del))
        else Some((cs.cpusAllowed * effective, {}))
    }

    /** A new mask that holds all effective CPUs is one that would take them all. */
    lemma LendsAll(cs: Child, m: Mask)
      requires Valid()
      ensures (m * effective) - subparts == effective <==> effective <= m
      ensures (cs.cpusAllowed - m) * subparts * active == {} <==> forall c | c in cs.cpusAllowed && c in subparts && c in active :: c in m
    {
      forall c | c in effective ensures c !in subparts {
        assert c in subparts ==> c in effective * subparts;
      }
      if effective <= m { assert (m * effective) - subparts == effective; }
      if (m * effective) - subparts == effective { assert forall c | c in effective :: c in (m * effective) - subparts; }
      forall c | c in cs.cpusAllowed && c in subparts && c in active && c !in m ensures c in (cs.cpusAllowed - m) * subparts * active {}
    }

    /** The child's state after partcmd_update. */
    function NewState(cs: Child, partError: bool): State {
      match cs.state
      case Enabled => if partError then Error else Enabled
      case Error => if partError then Error else Enabled
      case Disabled => Disabled
    }

    /** Moving CPUs between the two masks; only active ones come back. */
    method Move(add: Mask, del: Mask)
      modifies `effective, `subparts, `nrSubparts
      ensures Moved(active, old(effective), old(subparts), add, del, effective, subparts) && nrSubparts == |subparts|
    {
      if add != {} {
        subparts := subparts + add;
        effective := effective - add;
      }
      if del != {} {
        subparts := subparts - del;
        // some of the CPUs in subparts_cpus might have been offlined
        effective := effective + del * active;
      }
      nrSubparts := |subparts|;
    }

    /**
     The decision of update_parent_subparts_cpumask: an answer, the child's new state, and
     the CPUs to lend and to take back. Lending everything is possible only when an active
     CPU comes back.
    */
    method Decide(cs: Child, cmd: Cmd, newmask: Option<Mask>) returns (ret: Answer, cs': Child, add: Mask, del: Mask)
      requires Valid() && Called(cs, cmd, newmask)
      ensures cs' == cs.(state := cs'.state) && (!cmd.Update? || ret == Inval ==> cs' == cs)
      ensures CanMove(active, effective, subparts, add, del)
      ensures ret != Changed ==> (add == {} && del == {}) || (!cmd.Update? && ret == Done)
      ensures cmd.Update? ==> (ret == Inval <==> UpdateRefused(isPartitionRoot, active, effective, subparts, cs, newmask))
      ensures cmd.Update? && ret != Inval ==> ret == if add == {} && del == {} then Done else Changed
      ensures !cmd.Update? ==> ret == Verdict(isPartitionRoot, effective, cs, cmd)
      ensures cmd.Update? && ret != Inval ==> (cs'.state, add, del) == Wanted(cs, newmask, effective, subparts)
      ensures cmd.Enable? && ret == Done ==> add == cs.cpusAllowed && del == {}
      ensures cmd.Disable? && ret == Done ==> add == {} && del == Lent(cs, subparts)
    {
      // the parent must be a partition root, and the mask must not be empty
      if !isPartitionRoot || (newmask.Some? && newmask.value == {}) || (newmask.None? && cs.cpusAllowed == {}) {
        return Inval, cs, {}, {};
      }
      // not allowed if there are online children
      if !cmd.Update? && cs.onlineChildren {
        return Busy, cs, {}, {};
      }
      if newmask.Some? { LendsAll(cs, newmask.value); }
      var req := Requested(cs, cmd, newmask);
      if req.None? {
        return Inval, cs, {}, {};
      }
      cs', add, del := cs, req.value.0, req.value.1;
      var partError := cmd.Update? && newmask.None? && add == effective;
      if cmd.Update? {
        cs' := cs.(state := NewState(cs, partError));
        // an invalid state before counts as an error now
        partError := cs.state == Error;
      }
      if !partError && cs'.state == Error {
        return Done, cs', {}, {};
      }
      if cs'.state == Error {
        // take all its CPUs out of the parent's subparts_cpus
        add := {};
        del := cs.cpusAllowed * subparts;
      }
      if add == {} && del == {} {
        return Done, cs', {}, {};
      }
      ret := if cmd.Update? then Changed else Done;
    }

    /** How the callers use the commands. */
    ghost predicate Called(cs: Child, cmd: Cmd, newmask: Option<Mask>) {
      && (cs.state == match cmd case Enable => Disabled case Disable => Enabled case Update => if cs.state == Error then Error else Enabled)
      && (newmask.Some? ==> cmd.Update?)
    }

    /** The masks change only when some CPU moves. */
    method Apply(add: Mask, del: Mask)
      requires Valid() && CanMove(active, effective, subparts, add, del)
      modifies `effective, `subparts, `nrSubparts
      ensures Valid() && UnionKept(active, old(effective), old(subparts), effective, subparts)
      ensures Moved(active, old(effective), old(subparts), add, del, effective, subparts)
      ensures add == {} && del == {} ==> effective == old(effective) && subparts == old(subparts)
    {
      if add != {} || del != {} {
        Move(add, del);
      } else {
        OneWay(active, effective, subparts);
      }
      MoveKeeps(active, old(effective), old(subparts), add, del, effective, subparts);
    }

    /** update_parent_subparts_cpumask; the child is returned with its new state. */
    method UpdateParentSubparts(cs: Child, cmd: Cmd, newmask: Option<Mask>) returns (ret: Answer, cs': Child)
      requires Valid() && Called(cs, cmd, newmask)
      modifies `effective, `subparts, `nrSubparts
      ensures Valid() && UnionKept(active, old(effective), old(subparts), effective, subparts)
      ensures cs' == cs.(state := cs'.state) && (!cmd.Update? || ret == Inval ==> cs' == cs)
      ensures ret == Inval || ret == Busy ==> effective == old(effective) && subparts == old(subparts)
      ensures cmd.Update? ==> (ret == Inval <==> UpdateRefused(isPartitionRoot, active, old(effective), old(subparts), cs, newmask))
      ensures cmd.Update? && ret != Inval ==> ret == if subparts == old(subparts) then Done else Changed
      ensures ret != Changed && cmd.Update? ==> effective == old(effective)
      ensures !cmd.Update? ==> ret == Verdict(isPartitionRoot, old(effective), cs, cmd)
      ensures cmd.Update? && ret != Inval ==>
        var (state, add, del) := Wanted(cs, newmask, old(effective), old(subparts));
        cs'.state == state && Moved(active, old(effective), old(subparts), add, del, effective, subparts)
      ensures cmd.Enable? && ret == Done ==> Moved(active, old(effective), old(subparts), cs.cpusAllowed, {}, effective, subparts)
      ensures cmd.Disable? && ret == Done ==>
        Moved(active, old(effective), old(subparts), {}, Lent(cs, old(subparts)), effective, subparts)
    {
      hide Sound, CanMove, Lent, UnionKept, Verdict, Moved, Wanted, UpdateRefused;
      var add, del;
      ret, cs', add, del := Decide(cs, cmd, newmask);
      Apply(add, del);
      MoveShows(active, old(effective), old(subparts), add, del, effective, subparts);
    }

    /**
     update_prstate. flagError is the error, if any, of setting the exclusive bit; a child that
     becomes a partition root must be granted all its CPUs.
    */
    method UpdatePrstate(cs: Child, val: int, flagError: Option<nat>) returns (ret: Answer, cs': Child)
      requires Valid()
      modifies `effective, `subparts, `nrSubparts
      ensures Valid() && UnionKept(active, old(effective), old(subparts), effective, subparts)
      ensures ret == StateAnswer(isPartitionRoot, old(effective), cs, val, flagError)
      ensures ret == Done && val == 1 ==> cs' == cs.(state := Enabled, cpuExclusive := cs.state == Disabled || cs.cpuExclusive)
      ensures ret == Done && val == 0 ==> cs' == cs.(state := Disabled, cpuExclusive := cs.state == Disabled && cs.cpuExclusive)
      ensures ret != Done ==>
        cs' == if cs.state == Disabled && val == 1 && flagError.None? && cs.cpusAllowed != {} then cs.(cpuExclusive := false) else cs
      ensures ret == Done && val == 1 && cs.state == Disabled ==>
        Moved(active, old(effective), old(subparts), cs.cpusAllowed, {}, effective, subparts)
      ensures ret == Done && val == 0 && cs.state == Enabled ==>
        Moved(active, old(effective), old(subparts), {}, Lent(cs, old(subparts)), effective, subparts)
      ensures ret != Done || cs.state == cs'.state || cs.state == Error ==> effective == old(effective) && subparts == old(subparts)
    {
      cs' := cs;
      if val != 0 && val != 1 {
        return Inval, cs;
      }
      if val == (match cs.state case Disabled => 0 case Enabled => 1 case Error => -1) {
        return Done, cs;
      }
      // a partial or invalid partition root cannot be forced to a full one
      if val == 1 && cs.state != Disabled {
        return Inval, cs;
      }
      if cs.state == Disabled {
        if cs.cpusAllowed == {} {
          return Inval, cs;
        }
        if flagError.Some? {
          return Refused(flagError.value), cs;
        }
        cs' := cs.(cpuExclusive := true);
        var ignored;
        ret, ignored := UpdateParentSubparts(cs, Enable, None);
        if ret != Done {
          cs' := cs.(cpuExclusive := false);
          return;
        }
        cs' := cs'.(state := Enabled);
      } else if cs.state == Error {
        return Done, cs.(state := Disabled, cpuExclusive := false);
      } else {
        var ignored;
        ret, ignored := UpdateParentSubparts(cs, Disable, None);
        if ret != Done {
          return;
        }
        cs' := cs.(state := Disabled, cpuExclusive := false);
      }
    }

    /** CPUs come and go between two commands. */
    method SetActive(mask: Mask)
      requires Valid()
      modifies `active
      ensures Valid() && active == mask
    {
      active := mask;
    }

    /**
     Enabling a child and, when later is active, disabling it again. The child's CPUs that
     are not active by then do not come back, so the effective mask is restored exactly if
     all of them are; subparts_cpus is restored in any case.
    */
    method EnableThenDisable(cs: Child, later: Mask) returns (granted: bool)
      requires Valid() && cs.state == Disabled && !cs.onlineChildren
      modifies `active, `effective, `subparts, `nrSubparts
      ensures Valid() && subparts == old(subparts) && active == later
      ensures granted <==> isPartitionRoot && cs.cpusAllowed != {} && cs.cpusAllowed < old(effective)
      ensures effective == if granted then old(effective) - (cs.cpusAllowed - later) else old(effective)
      ensures granted ==> (effective == old(effective) <==> cs.cpusAllowed <= later)
    {
      hide UnionKept, Moved;
      var ret, cs1 := UpdatePrstate(cs, 1, None);
      granted := ret == Done;
      SetActive(later);
      if granted {
        RoundTrip(old(active), later, old(effective), old(subparts), cs.cpusAllowed);
        var ret2, cs2 := UpdatePrstate(cs1, 0, None);
      }
    }
  }

  /** A CPU that goes offline while it is lent is lost to the parent when the child gives it back. */
  method OfflineCpuIsLost() returns (p: Parent, granted: bool)
    ensures fresh(p) && p.Valid() && granted && p.effective == {0} && p.subparts == {}
  {
    p := new Parent({0, 1}, {0, 1}, {});
    var child := Child({1}, Disabled, false, false);
    assert 0 in {0, 1} && 0 !in {1} && {1} < {0, 1};
    granted := p.EnableThenDisable(child, {0});
    assert {0, 1} - ({1} - {0}) == {0};
  }

  /** So is one that the effective mask held although it was offline from the start. */
  method InactiveCpuIsLost() returns (p: Parent, granted: bool)
    ensures fresh(p) && p.Valid() && granted && p.active == {0} && p.effective == {0} && p.subparts == {}
  {
    p := new Parent({0}, {0, 1}, {});
    assert 0 in {0, 1} && 0 !in {1} && {1} < {0, 1};
    granted := p.EnableThenDisable(Child({1}, Disabled, false, false), {0});
    assert {0, 1} - ({1} - {0}) == {0};
  }
}
