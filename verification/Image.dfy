/** Images: the counters of the VMs and clones using one, its permissions, and its persistency. */
module Image {

  datatype ImageType = OS | CDROM | DATABLOCK | KERNEL | RAMDISK | CONTEXT

  datatype ImageState = INIT | READY | USED | DISABLED | LOCKED | ERROR | CLONE | DELETE | USED_PERS

  /** Use, manage and admin rights of one class of users: 0 or 1; in a request -1 keeps the old one. */
  datatype Rights = Rights(u: int, m: int, a: int)
  {
    function Set(r: Rights): Rights {
      Rights(SetPerm(u, r.u), SetPerm(m, r.m), SetPerm(a, r.a))
    }

    predicate InRange() {
      -1 <= u <= 1 && -1 <= m <= 1 && -1 <= a <= 1
    }
  }

  datatype Permissions = Permissions(owner: Rights, group: Rights, other: Rights)
  {
    function Set(p: Permissions): Permissions {
      Permissions(owner.Set(p.owner), group.Set(p.group), other.Set(p.other))
    }

    predicate InRange() {
      owner.InRange() && group.InRange() && other.InRange()
    }
  }

  function SetPerm(perm: int, new_: int): int {
    if new_ != -1 then new_ else perm
  }

  datatype State = State(
    state: ImageState, perms: Permissions, persistent: bool,
    vms: set<int>, runningVms: int, clones: set<int>, cloningOps: int)
  {
    predicate IsPublic() { perms.group.u == 1 || perms.other.u == 1 }
  }

  // ---------------------------------------------------------------------------------------------
  // Creation
  // ---------------------------------------------------------------------------------------------

  /** The bit of weight `w` (a power of two) of a permission mask. */
  predicate Bit(mask: nat, w: nat)
    requires w > 0
  {
    mask / w % 2 == 1
  }

  /** The right of weight `w`: among `perms` and not masked. */
  function Granted(perms: nat, umask: nat, w: nat): int
    requires w > 0
  {
    if Bit(perms, w) && !Bit(umask, w) then 1 else 0
  }

  /** All rights for the administrator, else use and manage, for others only where the site allows it: octal 0777,
      0666 and 0660. */
  function InitialPerms(admin: bool, enableOther: bool): nat {
    if admin then 511 else if enableOther then 438 else 432
  }

  function Masked(perms: nat, umask: nat): Permissions {
    Permissions(
      Rights(Granted(perms, umask, 256), Granted(perms, umask, 128), Granted(perms, umask, 64)),
      Rights(Granted(perms, umask, 32), Granted(perms, umask, 16), Granted(perms, umask, 8)),
      Rights(Granted(perms, umask, 4), Granted(perms, umask, 2), Granted(perms, umask, 1)))
  }

  /** A new image, once inserted: `asked` is whether its template says PERSISTENT = YES. */
  function Created(t: ImageType, asked: bool, admin: bool, enableOther: bool, umask: nat): State {
    State(LOCKED, Masked(InitialPerms(admin, enableOther), umask),
          (t == OS || t == CDROM || t == DATABLOCK) && asked, {}, 0, {}, 0)
  }

  // ---------------------------------------------------------------------------------------------
  // Calls
  // ---------------------------------------------------------------------------------------------

  datatype Call =
    | IncRunning(vm: int)
    | DecRunning(vm: int)
    | IncCloning(img: int)
    | DecCloning(img: int)
    | SetPermissions(perms: Permissions)
    | Persistent(on: bool)
    | SetState(state: ImageState)

  predicate PermissionsRefused(s: State, p: Permissions) {
    (s.persistent && (p.group.u == 1 || p.other.u == 1)) || !p.InRange()
  }

  predicate PersistentRefused(s: State, on: bool) {
    s.state == USED || s.state == CLONE || s.state == USED_PERS || (on && s.IsPublic())
  }

  function Step(s: State, c: Call): State {
    match c
    case IncRunning(vm) => if vm in s.vms then s else s.(vms := s.vms + {vm}, runningVms := s.runningVms + 1)
    case DecRunning(vm) => if vm in s.vms then s.(vms := s.vms - {vm}, runningVms := s.runningVms - 1) else s
    case IncCloning(img) => if img in s.clones then s else s.(clones := s.clones + {img}, cloningOps := s.cloningOps + 1)
    case DecCloning(img) => if img in s.clones then s.(clones := s.clones - {img}, cloningOps := s.cloningOps - 1) else s
    case SetPermissions(p) => if PermissionsRefused(s, p) then s else s.(perms := s.perms.Set(p))
    case Persistent(on) => if PersistentRefused(s, on) then s else s.(persistent := on)
    case SetState(state) => s.(state := state)
  }

  function Run(s: State, calls: seq<Call>): State {
    if calls == [] then s else Step(Run(s, calls[..|calls| - 1]), calls[|calls| - 1])
  }

  class ImageObject {
    var state: ImageState
    var perms: Permissions
    var persistentImg: bool
    var vmCollection: set<int>
    var runningVms: int
    var imgCloneCollection: set<int>
    var cloningOps: int

    function Now(): State
      reads this
    {
      State(state, perms, persistentImg, vmCollection, runningVms, imgCloneCollection, cloningOps)
    }

    constructor (t: ImageType, asked: bool, admin: bool, enableOther: bool, umask: nat)
      ensures Now() == Created(t, asked, admin, enableOther, umask)
    {
      state := LOCKED;
      perms := Masked(InitialPerms(admin, enableOther), umask);
      persistentImg := match t
        case OS | CDROM | DATABLOCK => asked
        case KERNEL | RAMDISK | CONTEXT => false;
      vmCollection, runningVms, imgCloneCollection, cloningOps := {}, 0, {}, 0;
    }

    method IncRunningVm(vm: int) returns (n: int)
      modifies this
      ensures Now() == Step(old(Now()), IncRunning(vm)) && n == runningVms
    {
      if vm !in vmCollection {
        vmCollection := vmCollection + {vm};
        runningVms := runningVms + 1;
      }
      n := runningVms;
    }

    method DecRunningVm(vm: int) returns (n: int)
      modifies this
      ensures Now() == Step(old(Now()), DecRunning(vm)) && n == runningVms
    {
      if vm in vmCollection {
        vmCollection := vmCollection - {vm};
        runningVms := runningVms - 1;
      }
      n := runningVms;
    }

    method IncCloningOp(img: int) returns (n: int)
      modifies this
      ensures Now() == Step(old(Now()), IncCloning(img)) && n == cloningOps
    {
      if img !in imgCloneCollection {
        imgCloneCollection := imgCloneCollection + {img};
        cloningOps := cloningOps + 1;
      }
      n := cloningOps;
    }

    method DecCloningOp(img: int) returns (n: int)
      modifies this
      ensures Now() == Step(old(Now()), DecCloning(img)) && n == cloningOps
    {
      if img in imgCloneCollection {
        imgCloneCollection := imgCloneCollection - {img};
        cloningOps := cloningOps - 1;
      }
      n := cloningOps;
    }

    method ChangePermissions(p: Permissions) returns (rc: int)
      modifies this
      ensures Now() == Step(old(Now()), SetPermissions(p))
      ensures rc == if PermissionsRefused(old(Now()), p) then -1 else 0
    {
      if persistentImg && (p.group.u == 1 || p.other.u == 1) {
        return -1;
      }
      if !p.InRange() {
        return -1;
      }
      perms := Permissions(perms.owner.Set(p.owner), perms.group.Set(p.group), perms.other.Set(p.other));
      return 0;
    }

    method ChangePersistent(on: bool) returns (rc: int)
      modifies this
      ensures Now() == Step(old(Now()), Persistent(on))
      ensures rc == if PersistentRefused(old(Now()), on) then -1 else 0
    {
      match state
      case USED | CLONE | USED_PERS =>
        return -1;
      case INIT | READY | DISABLED | LOCKED | ERROR | DELETE =>
        if on {
          if perms.group.u == 1 || perms.other.u == 1 {
            return -1;
          }
          persistentImg := true;
        } else {
          persistentImg := false;
        }
        return 0;
    }
  }

  // ---------------------------------------------------------------------------------------------
  // Invariants
  // ---------------------------------------------------------------------------------------------

  ghost predicate Inv(s: State) {
    && !(s.persistent && s.IsPublic())
    && s.runningVms == |s.vms| && s.cloningOps == |s.clones|
  }

  lemma PermissionsKeep(s: State, p: Permissions)
    requires Inv(s)
    ensures Inv(Step(s, SetPermissions(p)))
  {
    if !PermissionsRefused(s, p) {
      assert s.persistent ==> s.perms.Set(p).group.u != 1 && s.perms.Set(p).other.u != 1;
    }
  }

  lemma RunningKeeps(s: State, vm: int)
    requires Inv(s)
    ensures Inv(Step(s, IncRunning(vm))) && Inv(Step(s, DecRunning(vm)))
  {
  }

  lemma CloningKeeps(s: State, img: int)
    requires Inv(s)
    ensures Inv(Step(s, IncCloning(img))) && Inv(Step(s, DecCloning(img)))
  {
  }

  lemma StepKeeps(s: State, c: Call)
    requires Inv(s)
    ensures Inv(Step(s, c))
  {
    match c
    case SetPermissions(p) => PermissionsKeep(s, p);
    case IncRunning(vm) => RunningKeeps(s, vm);
    case DecRunning(vm) => RunningKeeps(s, vm);
    case IncCloning(img) => CloningKeeps(s, img);
    case DecCloning(img) => CloningKeeps(s, img);
    case Persistent(on) =>
    case SetState(state) =>
  }

  /** From a state where an image is not both persistent and public and its counters are the sizes of their sets, no
      run of calls leads out. */
  lemma {:induction false} NeverPublicAndPersistent(s: State, calls: seq<Call>)
    requires Inv(s)
    ensures Inv(Run(s, calls))
  {
    if calls != [] {
      NeverPublicAndPersistent(s, calls[..|calls| - 1]);
      StepKeeps(Run(s, calls[..|calls| - 1]), calls[|calls| - 1]);
    }
  }

  /** Creation does not check: a new image satisfies the invariant exactly unless its type may be persistent, its
      template asks for it, and the mask leaves the group or, where others get rights at all, others the use right. */
  lemma CreationMayBreakIt(t: ImageType, asked: bool, admin: bool, enableOther: bool, umask: nat)
    ensures Inv(Created(t, asked, admin, enableOther, umask))
            <==> !((t == OS || t == CDROM || t == DATABLOCK) && asked
                   && (!Bit(umask, 32) || ((admin || enableOther) && !Bit(umask, 4))))
  {
    assert Bit(511, 32) && Bit(438, 32) && Bit(432, 32);
    assert Bit(511, 4) && Bit(438, 4) && !Bit(432, 4);
  }

  /** While every state a run passes through is one of in use or being cloned, the persistency stays what it was,
      whatever is called. */
  lemma {:induction false} PersistencyFrozen(s: State, calls: seq<Call>)
    requires forall i | 0 <= i < |calls| ::
               var st := Run(s, calls[..i]).state;
               st == USED || st == CLONE || st == USED_PERS
    ensures Run(s, calls).persistent == s.persistent
  {
    if calls != [] {
      var n := |calls| - 1;
      assert forall i | 0 <= i < n :: calls[..n][..i] == calls[..i];
      PersistencyFrozen(s, calls[..n]);
    }
  }

  // ---------------------------------------------------------------------------------------------
  // What the calls do
  // ---------------------------------------------------------------------------------------------

  /** The call is about the VM. */
  predicate AboutVm(c: Call, vm: int) {
    (c.IncRunning? || c.DecRunning?) && c.vm == vm
  }

  predicate AboutClone(c: Call, img: int) {
    (c.IncCloning? || c.DecCloning?) && c.img == img
  }

  ghost predicate LastAboutVm(calls: seq<Call>, vm: int, i: int) {
    0 <= i < |calls| && AboutVm(calls[i], vm) && forall j | i < j < |calls| :: !AboutVm(calls[j], vm)
  }

  ghost predicate LastAboutClone(calls: seq<Call>, img: int, i: int) {
    0 <= i < |calls| && AboutClone(calls[i], img) && forall j | i < j < |calls| :: !AboutClone(calls[j], img)
  }

  /** After any run the image counts a VM as running exactly when the last call about it was to count it; without a call
      about it, when it was counted before. */
  lemma {:induction false} RunningFollowsLastCall(s: State, calls: seq<Call>, vm: int)
    ensures forall i | LastAboutVm(calls, vm, i) :: vm in Run(s, calls).vms <==> calls[i].IncRunning?
    ensures (forall i :: !LastAboutVm(calls, vm, i)) ==> (vm in Run(s, calls).vms <==> vm in s.vms)
  {
    if calls != [] {
      var n := |calls| - 1;
      RunningFollowsLastCall(s, calls[..n], vm);
      assert forall j | 0 <= j < n :: calls[j] == calls[..n][j];
      if AboutVm(calls[n], vm) {
        assert LastAboutVm(calls, vm, n);
      } else {
        assert forall i :: LastAboutVm(calls, vm, i) <==> LastAboutVm(calls[..n], vm, i);
      }
    }
  }

  /** And the same of the images being cloned from it. */
  lemma {:induction false} CloningFollowsLastCall(s: State, calls: seq<Call>, img: int)
    ensures forall i | LastAboutClone(calls, img, i) :: img in Run(s, calls).clones <==> calls[i].IncCloning?
    ensures (forall i :: !LastAboutClone(calls, img, i)) ==> (img in Run(s, calls).clones <==> img in s.clones)
  {
    if calls != [] {
      var n := |calls| - 1;
      CloningFollowsLastCall(s, calls[..n], img);
      assert forall j | 0 <= j < n :: calls[j] == calls[..n][j];
      if AboutClone(calls[n], img) {
        assert LastAboutClone(calls, img, n);
      } else {
        assert forall i :: LastAboutClone(calls, img, i) <==> LastAboutClone(calls[..n], img, i);
      }
    }
  }

  /** One right after a call: -1 leaves it. */
  predicate Follows(now: int, asked: int, was: int) {
    if asked == -1 then now == was else now == asked
  }

  predicate AllFollow(now: Rights, asked: Rights, was: Rights) {
    Follows(now.u, asked.u, was.u) && Follows(now.m, asked.m, was.m) && Follows(now.a, asked.a, was.a)
  }

  predicate Legal(r: Rights) {
    (r.u == -1 || r.u == 0 || r.u == 1) && (r.m == -1 || r.m == 0 || r.m == 1) && (r.a == -1 || r.a == 0 || r.a == 1)
  }

  /** Permissions are taken, each of the nine, when all of them are -1, 0 or 1 and do not give a persistent image's use to
      group or others; else nothing changes. */
  lemma PermissionsTaken(s: State, p: Permissions)
    ensures var s', taken := Step(s, SetPermissions(p)),
                             Legal(p.owner) && Legal(p.group) && Legal(p.other)
                             && !(s.persistent && (p.group.u == 1 || p.other.u == 1));
            && s' == s.(perms := s'.perms)
            && (taken ==> AllFollow(s'.perms.owner, p.owner, s.perms.owner) && AllFollow(s'.perms.group, p.group, s.perms.group)
                          && AllFollow(s'.perms.other, p.other, s.perms.other))
            && (!taken ==> s' == s)
            && (PermissionsRefused(s, p) <==> !taken)
  {
    LegalIsInRange(p.owner);
    LegalIsInRange(p.group);
    LegalIsInRange(p.other);
    RightsFollow(s.perms.owner, p.owner);
    RightsFollow(s.perms.group, p.group);
    RightsFollow(s.perms.other, p.other);
  }

  lemma LegalIsInRange(r: Rights)
    ensures Legal(r) <==> r.InRange()
  {
  }

  lemma RightsFollow(was: Rights, asked: Rights)
    ensures AllFollow(was.Set(asked), asked, was)
  {
  }

  /** Persistency is set as asked unless the image is used or cloned, or would be persistent while group or others may use
      it; nothing else changes. */
  lemma PersistencyTaken(s: State, on: bool)
    ensures var s', refused := Step(s, Persistent(on)),
                               s.state in {USED, CLONE, USED_PERS} || (on && (s.perms.group.u == 1 || s.perms.other.u == 1));
            && s' == s.(persistent := if refused then s.persistent else on)
            && (PersistentRefused(s, on) <==> refused)
  {
  }

  /** The state is what it was last set to. */
  lemma StateTaken(s: State, state: ImageState)
    ensures Step(s, SetState(state)) == s.(state := state)
  {
  }

  /** The rights of a new image: for owner and group use and manage, for others the same where the site gives them any,
      and to an administrator's image all rights, each unless the mask has its bit. */
  lemma CreatedRights(t: ImageType, asked: bool, admin: bool, enableOther: bool, umask: nat)
    ensures var p := Created(t, asked, admin, enableOther, umask).perms;
            && (p.owner.u == 1 <==> !Bit(umask, 256)) && (p.owner.m == 1 <==> !Bit(umask, 128))
            && (p.owner.a == 1 <==> admin && !Bit(umask, 64))
            && (p.group.u == 1 <==> !Bit(umask, 32)) && (p.group.m == 1 <==> !Bit(umask, 16))
            && (p.group.a == 1 <==> admin && !Bit(umask, 8))
            && (p.other.u == 1 <==> (admin || enableOther) && !Bit(umask, 4))
            && (p.other.m == 1 <==> (admin || enableOther) && !Bit(umask, 2))
            && (p.other.a == 1 <==> admin && !Bit(umask, 1))
    ensures var p := Created(t, asked, admin, enableOther, umask).perms;
            Legal(p.owner) && Legal(p.group) && Legal(p.other)
    ensures var s := Created(t, asked, admin, enableOther, umask);
            && s.state == LOCKED && s.vms == {} && s.clones == {}
            && (s.persistent <==> asked && t in {OS, CDROM, DATABLOCK})
  {
    InitialBits();
  }

  lemma InitialBits()
    ensures forall w | w in {256, 128, 64, 32, 16, 8, 4, 2, 1} :: Bit(511, w)
    ensures forall w | w in {256, 128, 32, 16} :: Bit(438, w) && Bit(432, w)
    ensures !Bit(438, 64) && !Bit(432, 64) && !Bit(438, 8) && !Bit(432, 8) && !Bit(438, 1) && !Bit(432, 1)
    ensures Bit(438, 4) && Bit(438, 2) && !Bit(432, 4) && !Bit(432, 2)
  {
  }
}
