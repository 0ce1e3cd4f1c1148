/** What the capacity counters mean over every run: the ledger behind a host's counters, the admission bound, and
    conservation over the pool. The ledger (who is charged what) is kept beside the host; the host does not see it. */
module CapacityTheorems {
  import opened Ledger
  import opened Capacity

  /** A change of a host's capacity. A resize reaches the host without the VM's id; `vm` says whose it is. */
  datatype Op = AddOp(vm: int, c: Charge) | DelOp(vm: int, c: Charge) | ResizeOp(vm: int, c: Charge)

  type Book = map<int, Charge>

  /** A host, the charge of every VM on it, and what was taken off or put on without being anybody's charge. */
  datatype Account = Account(host: HostState, book: Book, drift: Charge)

  function Opened(max: Charge): Account {
    Account(HostState({}, Share(NOTHING, 0, max)), map[], NOTHING)
  }

  function OnHost(h: HostState, op: Op): HostState {
    match op
    case AddOp(vm, c) => AddCapacity(h, vm, c)
    case DelOp(vm, c) => DelCapacity(h, vm, c)
    case ResizeOp(vm, c) => UpdateCapacity(h, c)
  }

  function OnBook(b: Book, op: Op): Book {
    match op
    case AddOp(vm, c) => if vm in b then b else b[vm := c]
    case DelOp(vm, c) => Without(b, vm)
    case ResizeOp(vm, c) => if vm in b then b[vm := b[vm].Plus(c)] else b
  }

  /** The part of an operation the ledger does not account for. */
  function Unaccounted(b: Book, op: Op): Charge {
    match op
    case AddOp(vm, c) => NOTHING
    case DelOp(vm, c) => if vm in b then b[vm].Minus(c) else NOTHING
    case ResizeOp(vm, c) => if vm in b then NOTHING else c
  }

  function Step(a: Account, op: Op): Account {
    Account(OnHost(a.host, op), OnBook(a.book, op), a.drift.Plus(Unaccounted(a.book, op)))
  }

  function Run(a: Account, ops: seq<Op>): Account {
    if ops == [] then a else Step(Run(a, ops[..|ops| - 1]), ops[|ops| - 1])
  }

  // ---------------------------------------------------------------------------------------------
  // The ledger of a host
  // ---------------------------------------------------------------------------------------------

  ghost predicate Balanced(a: Account) {
    && a.host.vms == a.book.Keys
    && a.host.share.usage == Sum(a.book).Plus(a.drift).Wrapped()
    && a.host.share.running == Wrap(|a.host.vms|)
  }

  lemma AddedUsage(b: Book, vm: int, c: Charge, drift: Charge)
    requires vm !in b
    ensures Sum(b).Plus(drift).Wrapped().Plus(c).Wrapped() == Sum(b[vm := c]).Plus(drift).Wrapped()
  {
    SumPut(b, vm, c);
    WrappedPlus(Sum(b).Plus(drift), c);
    assert Sum(b[vm := c]).Plus(drift) == Sum(b).Plus(drift).Plus(c);
  }

  lemma AddKeeps(a: Account, vm: int, c: Charge)
    requires Balanced(a)
    ensures Balanced(Step(a, AddOp(vm, c)))
  {
    if vm !in a.book {
      AddedUsage(a.book, vm, c, a.drift);
      OneMore(a.host.vms, vm);
      assert a.drift.Plus(NOTHING) == a.drift;
    }
  }

  lemma DelKeeps(a: Account, vm: int, c: Charge)
    requires Balanced(a)
    ensures Balanced(Step(a, DelOp(vm, c)))
  {
    if vm in a.book {
      var vms, total := a.host.vms, Sum(a.book).Plus(a.drift);
      SumDrop(a.book, vm);
      WrappedMinus(total, c);
      assert total.Minus(c) == Sum(Without(a.book, vm)).Plus(a.drift.Plus(a.book[vm].Minus(c)));
      OneFewer(vms, vm);
    } else {
      assert Without(a.book, vm) == a.book;
    }
  }

  lemma OneMore(s: set<int>, x: int)
    requires x !in s
    ensures Wrap(Wrap(|s|) + 1) == Wrap(|s + {x}|)
  {
    WrapPlus(|s|, 1);
  }

  lemma OneFewer(s: set<int>, x: int)
    requires x in s
    ensures Wrap(Wrap(|s|) - 1) == Wrap(|s - {x}|)
  {
    WrapPlus(|s|, -1);
  }

  lemma ResizeKeeps(a: Account, vm: int, c: Charge)
    requires Balanced(a)
    ensures Balanced(Step(a, ResizeOp(vm, c)))
  {
    var total := Sum(a.book).Plus(a.drift);
    WrappedPlus(total, c);
    if vm in a.book {
      SumPut(a.book, vm, a.book[vm].Plus(c));
      assert a.book[vm := a.book[vm].Plus(c)].Keys == a.book.Keys;
      assert total.Plus(c) == Sum(a.book[vm := a.book[vm].Plus(c)]).Plus(a.drift);
    } else {
      assert total.Plus(c) == Sum(a.book).Plus(a.drift.Plus(c));
    }
  }

  lemma StepKeeps(a: Account, op: Op)
    requires Balanced(a)
    ensures Balanced(Step(a, op))
    ensures Step(a, op).host.share.max == a.host.share.max
  {
    match op
    case AddOp(vm, c) => AddKeeps(a, vm, c);
    case DelOp(vm, c) => DelKeeps(a, vm, c);
    case ResizeOp(vm, c) => ResizeKeeps(a, vm, c);
  }

  /** Over every run, with no condition on the amounts: the VM set is the set of VMs with a charge, the running
      counter its size, and each usage counter the sum of the charges plus the drift, modulo 2^32. So usage
      is the sum of the charges exactly when the drift is zero modulo 2^32. */
  lemma {:induction false} HostLedger(max: Charge, ops: seq<Op>)
    ensures var a := Run(Opened(max), ops);
            && Balanced(a) && a.host.share.max == max
            && (a.host.share.usage == Sum(a.book).Wrapped() <==> a.drift.Wrapped() == NOTHING)
  {
    if ops != [] {
      HostLedger(max, ops[..|ops| - 1]);
      StepKeeps(Run(Opened(max), ops[..|ops| - 1]), ops[|ops| - 1]);
    }
    var a := Run(Opened(max), ops);
    WrappedSame(Sum(a.book), a.drift);
  }

  /** A delete returns what the VM is charged at that moment; a resize is for a VM on the host. */
  predicate Matched(b: Book, op: Op) {
    match op
    case AddOp(vm, c) => true
    case DelOp(vm, c) => vm in b ==> c == b[vm]
    case ResizeOp(vm, c) => vm in b
  }

  ghost predicate Disciplined(a: Account, ops: seq<Op>) {
    forall i | 0 <= i < |ops| :: Matched(Run(a, ops[..i]).book, ops[i])
  }

  lemma DisciplinedPrefix(a: Account, ops: seq<Op>, n: nat)
    requires Disciplined(a, ops) && n <= |ops|
    ensures Disciplined(a, ops[..n])
  {
    forall i | 0 <= i < n
      ensures Matched(Run(a, ops[..n][..i]).book, ops[..n][i])
    {
      assert ops[..n][..i] == ops[..i];
    }
  }

  lemma {:induction false} NoDrift(max: Charge, ops: seq<Op>)
    requires Disciplined(Opened(max), ops)
    ensures Run(Opened(max), ops).drift == NOTHING
  {
    if ops != [] {
      var n := |ops| - 1;
      DisciplinedPrefix(Opened(max), ops, n);
      NoDrift(max, ops[..n]);
      assert Matched(Run(Opened(max), ops[..n]).book, ops[n]);
    }
  }

  lemma StepExact(a: Account, op: Op)
    requires Balanced(a) && a.drift == NOTHING && Matched(a.book, op)
    ensures Balanced(Step(a, op)) && Step(a, op).drift == NOTHING
  {
    StepKeeps(a, op);
  }

  // ---------------------------------------------------------------------------------------------
  // Admission
  // ---------------------------------------------------------------------------------------------

  /** The operation matches the ledger, asks for nothing negative, and passed the capacity test if it takes more. */
  predicate Admitted(a: Account, op: Op) {
    && Matched(a.book, op)
    && (op.AddOp? ==> NOTHING.AtMost(op.c) && Test(a.host.share, op.c))
    && (op.ResizeOp? ==> op.vm in a.book && NOTHING.AtMost(a.book[op.vm].Plus(op.c)) && Test(a.host.share, op.c))
  }

  ghost predicate AllAdmitted(a: Account, ops: seq<Op>) {
    forall i | 0 <= i < |ops| :: Admitted(Run(a, ops[..i]), ops[i])
  }

  ghost predicate WithinLimits(a: Account, max: Charge) {
    && Balanced(a) && a.drift == NOTHING && a.host.share.max == max
    && (forall vm | vm in a.book :: NOTHING.AtMost(a.book[vm]))
    && a.host.share.usage == Sum(a.book)
    && NOTHING.AtMost(a.host.share.usage) && a.host.share.usage.AtMost(max)
  }

  /** With usage between zero and the limit, the machine test is the unbounded comparison. */
  lemma TestIsExact(s: Share, c: Charge)
    requires s.max.Fits() && NOTHING.AtMost(s.usage) && s.usage.AtMost(s.max)
    ensures Test(s, c) <==> s.usage.Plus(c).AtMost(s.max)
  {
    WrapInt32(s.max.cpu - s.usage.cpu);
    WrapInt32(s.max.mem - s.usage.mem);
    WrapInt32(s.max.disk - s.usage.disk);
  }

  /** What remains to be shown of a step once its new sum is known to be in range. */
  lemma InRange(a: Account, max: Charge)
    requires Balanced(a) && a.drift == NOTHING && a.host.share.max == max && max.Fits()
    requires forall vm | vm in a.book :: NOTHING.AtMost(a.book[vm])
    requires Sum(a.book).AtMost(max)
    ensures WithinLimits(a, max)
  {
    SumNonNegative(a.book);
    var total := Sum(a.book);
    assert total.Plus(NOTHING) == total;
    WrappedPlus(total, NOTHING);
  }

  lemma AdmittedSum(a: Account, op: Op, max: Charge)
    requires max.Fits() && WithinLimits(a, max) && Admitted(a, op)
    ensures Sum(OnBook(a.book, op)).AtMost(max)
  {
    match op {
      case AddOp(vm, c) =>
        TestIsExact(a.host.share, c);
        SumPut(a.book, vm, c);
      case DelOp(vm, c) =>
        SumDrop(a.book, vm);
      case ResizeOp(vm, c) =>
        TestIsExact(a.host.share, c);
        SumPut(a.book, vm, a.book[vm].Plus(c));
    }
  }

  lemma AdmittedKeeps(a: Account, op: Op, max: Charge)
    requires max.Fits() && WithinLimits(a, max) && Admitted(a, op)
    ensures WithinLimits(Step(a, op), max)
  {
    StepExact(a, op);
    StepKeeps(a, op);
    AdmittedSum(a, op, max);
    InRange(Step(a, op), max);
  }

  lemma AllAdmittedPrefix(a: Account, ops: seq<Op>, n: nat)
    requires AllAdmitted(a, ops) && n <= |ops|
    ensures AllAdmitted(a, ops[..n])
  {
    forall i | 0 <= i < n
      ensures Admitted(Run(a, ops[..n][..i]), ops[..n][i])
    {
      assert ops[..n][..i] == ops[..i];
    }
  }

  /** A host without VMs is within its limits. */
  lemma OpenedWithin(max: Charge)
    requires NOTHING.AtMost(max) && max.Fits()
    ensures WithinLimits(Opened(max), max)
  {
    HostLedger(max, []);
    InRange(Opened(max), max);
  }

  lemma {:induction false} AdmittedRun(a: Account, max: Charge, ops: seq<Op>)
    requires max.Fits() && WithinLimits(a, max)
    requires AllAdmitted(a, ops)
    ensures WithinLimits(Run(a, ops), max)
  {
    if ops != [] {
      var n := |ops| - 1;
      AllAdmittedPrefix(a, ops, n);
      AdmittedRun(a, max, ops[..n]);
      AdmittedKeeps(Run(a, ops[..n]), ops[n], max);
    }
  }

  /** Starting within the limits, as a host without VMs does, and as long as what is added passed the test and deletes
      match the ledger: usage is the plain sum of the charges and stays between zero and the limit, so it never wraps;
      the test computes its differences without wrapping, and decides the unbounded condition for every request; and
      the VM counter is the number of VMs as long as that fits. */
  lemma AdmissionBound(a: Account, max: Charge, ops: seq<Op>, c: Charge)
    requires max.Fits() && WithinLimits(a, max)
    requires AllAdmitted(a, ops)
    ensures var h := Run(a, ops).host;
            && h.share.usage == Sum(Run(a, ops).book)
            && NOTHING.AtMost(h.share.usage) && h.share.usage.AtMost(max)
            && max.Minus(h.share.usage).Fits()
            && (Test(h.share, c) <==> h.share.usage.Plus(c).AtMost(max))
            && (|h.vms| < 0x8000_0000 ==> h.share.running == |h.vms|)
  {
    AdmittedRun(a, max, ops);
    TestIsExact(Run(a, ops).host.share, c);
    WrapInt32(|Run(a, ops).host.vms|);
  }

  // ---------------------------------------------------------------------------------------------
  // The pool
  // ---------------------------------------------------------------------------------------------

  datatype PoolOp = On(oid: int, op: Op) | DropOp(oid: int, dbOk: bool)

  type Accounts = map<int, Account>

  function Hosts(p: Accounts): Pool {
    map oid | oid in p :: p[oid].host
  }

  function PoolStep(p: Accounts, op: PoolOp): Accounts {
    match op
    case On(oid, o) => if oid in p then p[oid := Step(p[oid], o)] else p
    case DropOp(oid, dbOk) => if oid in p && p[oid].host.share.running <= 0 && dbOk then Without(p, oid) else p
  }

  function PoolRun(p: Accounts, ops: seq<PoolOp>): Accounts {
    if ops == [] then p else PoolStep(PoolRun(p, ops[..|ops| - 1]), ops[|ops| - 1])
  }

  /** An operation on a pool that keeps no ledger: what the methods of the pool class do. */
  function PoolOpStep(p: Pool, op: PoolOp): Pool {
    match op
    case On(oid, AddOp(vm, c)) => PoolAdd(p, oid, vm, c)
    case On(oid, DelOp(vm, c)) => PoolDel(p, oid, vm, c)
    case On(oid, ResizeOp(vm, c)) => PoolUpdate(p, oid, c)
    case DropOp(oid, dbOk) => PoolDrop(p, oid, dbOk)
  }

  function PoolOpRun(p: Pool, ops: seq<PoolOp>): Pool {
    if ops == [] then p else PoolOpStep(PoolOpRun(p, ops[..|ops| - 1]), ops[|ops| - 1])
  }

  /** The pool with ledgers moves as the pool without. */
  lemma PoolStepIsPool(p: Accounts, op: PoolOp)
    ensures Hosts(PoolStep(p, op)) == PoolOpStep(Hosts(p), op)
  {
  }

  /** Every run of the pool is the run of the pool with ledgers, without the ledgers. */
  lemma {:induction false} PoolRunIsPool(p: Accounts, ops: seq<PoolOp>)
    ensures Hosts(PoolRun(p, ops)) == PoolOpRun(Hosts(p), ops)
  {
    if ops != [] {
      var n := |ops| - 1;
      PoolRunIsPool(p, ops[..n]);
      PoolStepIsPool(PoolRun(p, ops[..n]), ops[n]);
    }
  }

  /** The counters of all hosts added up. */
  ghost function TotalOf(p: Pool): Charge {
    Sum(map oid | oid in p :: p[oid].share.usage)
  }

  lemma TotalOfHosts(p: Accounts)
    ensures TotalOf(Hosts(p)) == TotalUsage(p)
  {
    assert (map oid | oid in Hosts(p) :: Hosts(p)[oid].share.usage) == Usages(p);
  }

  ghost predicate PoolBalanced(p: Accounts) {
    forall oid | oid in p :: Balanced(p[oid])
  }

  function Usages(p: Accounts): map<int, Charge> {
    map oid | oid in p :: p[oid].host.share.usage
  }

  ghost function Charges(p: Accounts): map<int, Charge> {
    map oid | oid in p :: Sum(p[oid].book)
  }

  /** The counters of all hosts added up, and the charges of all placements. */
  ghost function TotalUsage(p: Accounts): Charge { Sum(Usages(p)) }

  ghost function TotalCharged(p: Accounts): Charge { Sum(Charges(p)) }

  ghost predicate PoolMatched(p: Accounts, op: PoolOp) {
    op.On? && op.oid in p ==> Matched(p[op.oid].book, op.op)
  }

  ghost predicate PoolDisciplined(p: Accounts, ops: seq<PoolOp>) {
    forall i | 0 <= i < |ops| :: PoolMatched(PoolRun(p, ops[..i]), ops[i])
  }

  ghost predicate Empty(p: Accounts) {
    forall oid | oid in p :: p[oid] == Opened(p[oid].host.share.max)
  }

  ghost predicate PoolExact(p: Accounts) {
    PoolBalanced(p) && forall oid | oid in p :: p[oid].drift == NOTHING
  }

  lemma PutExact(p: Accounts, oid: int, a: Account)
    requires PoolExact(p) && oid in p && Balanced(a) && a.drift == NOTHING
    ensures PoolExact(p[oid := a])
  {
  }

  lemma PoolStepExact(p: Accounts, op: PoolOp)
    requires PoolExact(p) && PoolMatched(p, op)
    ensures PoolExact(PoolStep(p, op))
  {
    match op
    case On(oid, o) =>
      if oid in p {
        StepExact(p[oid], o);
        PutExact(p, oid, Step(p[oid], o));
      }
    case DropOp(oid, dbOk) =>
  }

  lemma PoolDisciplinedPrefix(p: Accounts, ops: seq<PoolOp>, n: nat)
    requires PoolDisciplined(p, ops) && n <= |ops|
    ensures PoolDisciplined(p, ops[..n])
  {
    forall i | 0 <= i < n
      ensures PoolMatched(PoolRun(p, ops[..n][..i]), ops[..n][i])
    {
      assert ops[..n][..i] == ops[..i];
    }
  }

  lemma {:induction false} PoolStaysExact(p: Accounts, ops: seq<PoolOp>)
    requires PoolExact(p) && PoolDisciplined(p, ops)
    ensures PoolExact(PoolRun(p, ops))
  {
    if ops != [] {
      var n := |ops| - 1;
      PoolDisciplinedPrefix(p, ops, n);
      PoolStaysExact(p, ops[..n]);
      assert PoolMatched(PoolRun(p, ops[..n]), ops[n]);
      PoolStepExact(PoolRun(p, ops[..n]), ops[n]);
    }
  }

  lemma ExactTotals(p: Accounts)
    requires PoolExact(p)
    ensures TotalUsage(p).Wrapped() == TotalCharged(p).Wrapped()
  {
    forall oid | oid in p
      ensures Usages(p)[oid].Wrapped() == Charges(p)[oid].Wrapped()
    {
      assert Balanced(p[oid]);
      var total := Sum(p[oid].book);
      assert total.Plus(NOTHING) == total;
      WrappedPlus(total, NOTHING);
      WrappedPlus(total.Wrapped(), NOTHING);
    }
    SumCongruent(Usages(p), Charges(p));
  }

  lemma EmptyIsExact(p: Accounts)
    requires Empty(p)
    ensures PoolExact(p)
  {
    forall oid | oid in p
      ensures Balanced(p[oid]) && p[oid].drift == NOTHING
    {
      HostLedger(p[oid].host.share.max, []);
    }
  }

  /** Over any run of adds, deletes, resizes and drops: the counters of all hosts of the pool add up to the charges of
      all placements, modulo 2^32, if those of every host do at the start. */
  lemma PoolConservation(p: Accounts, ops: seq<PoolOp>)
    requires PoolExact(p) && PoolDisciplined(p, ops)
    ensures PoolExact(PoolRun(p, ops))
    ensures TotalOf(PoolOpRun(Hosts(p), ops)).Wrapped() == TotalCharged(PoolRun(p, ops)).Wrapped()
  {
    PoolStaysExact(p, ops);
    ExactTotals(PoolRun(p, ops));
    PoolRunIsPool(p, ops);
    TotalOfHosts(PoolRun(p, ops));
  }

  lemma {:induction false} PoolStaysBalanced(p: Accounts, ops: seq<PoolOp>)
    requires PoolBalanced(p)
    ensures PoolBalanced(PoolRun(p, ops))
  {
    if ops != [] {
      var n := |ops| - 1;
      PoolStaysBalanced(p, ops[..n]);
      var q := PoolRun(p, ops[..n]);
      match ops[n]
      case On(oid, o) =>
        if oid in q {
          StepKeeps(q[oid], o);
        }
      case DropOp(oid, dbOk) =>
    }
  }

  /** After any run, disciplined or not, a host leaves the pool only when it carries no VM (a host carries fewer than
      2^31: their ids are non-negative ints), and then it takes no charge with it. */
  lemma OnlyEmptyHostsDropped(p: Accounts, ops: seq<PoolOp>, oid: int, dbOk: bool)
    requires PoolBalanced(p) && oid in PoolRun(p, ops) && |PoolRun(p, ops)[oid].host.vms| < 0x8000_0000
    ensures oid !in PoolOpStep(PoolOpRun(Hosts(p), ops), DropOp(oid, dbOk)) <==> dbOk && PoolRun(p, ops)[oid].host.vms == {}
    ensures TotalCharged(PoolStep(PoolRun(p, ops), DropOp(oid, dbOk))) == TotalCharged(PoolRun(p, ops))
  {
    var q := PoolRun(p, ops);
    PoolStaysBalanced(p, ops);
    PoolRunIsPool(p, ops);
    PoolStepIsPool(q, DropOp(oid, dbOk));
    CounterIsZero(q[oid]);
    if q[oid].host.vms == {} {
      DropUncharged(q, oid);
    }
  }

  lemma CounterIsZero(a: Account)
    requires Balanced(a) && |a.host.vms| < 0x8000_0000
    ensures a.host.share.running <= 0 <==> a.host.vms == {}
    ensures a.host.vms == {} ==> Sum(a.book) == NOTHING
  {
    WrapInt32(|a.host.vms|);
  }

  lemma DropUncharged(p: Accounts, oid: int)
    requires oid in p && Sum(p[oid].book) == NOTHING
    ensures TotalCharged(Without(p, oid)) == TotalCharged(p)
  {
    SumDrop(Charges(p), oid);
    assert Without(Charges(p), oid) == Charges(Without(p, oid));
  }

  lemma ChargedAfter(p: Accounts, oid: int, a: Account)
    requires oid in p
    ensures TotalCharged(p[oid := a]) == TotalCharged(p).Minus(Sum(p[oid].book)).Plus(Sum(a.book))
  {
    SumPut(Charges(p), oid, Sum(a.book));
    assert Charges(p)[oid := Sum(a.book)] == Charges(p[oid := a]);
  }

  /** The migration of a VM: added at the destination, then deleted at the source with the same charge. */
  function Moved(p: Accounts, src: int, dst: int, vm: int, c: Charge): Accounts {
    PoolStep(PoolStep(p, On(dst, AddOp(vm, c))), On(src, DelOp(vm, c)))
  }

  lemma MoveIsExact(p: Accounts, src: int, dst: int, vm: int, c: Charge)
    requires PoolExact(p) && src in p && dst in p && src != dst
    requires vm in p[src].book && p[src].book[vm] == c
    ensures PoolExact(Moved(p, src, dst, vm, c))
  {
    var add, del := On(dst, AddOp(vm, c)), On(src, DelOp(vm, c));
    PoolStepExact(p, add);
    var p1 := PoolStep(p, add);
    DeleteMatched(p, src, dst, vm, c);
    PoolStepExact(p1, del);
  }

  lemma DeleteMatched(p: Accounts, src: int, dst: int, vm: int, c: Charge)
    requires src in p && dst in p && src != dst
    requires vm in p[src].book && p[src].book[vm] == c
    ensures PoolMatched(PoolStep(p, On(dst, AddOp(vm, c))), On(src, DelOp(vm, c)))
  {
  }

  lemma MoveCharges(p: Accounts, src: int, dst: int, vm: int, c: Charge)
    requires src in p && dst in p && src != dst
    requires vm in p[src].book && p[src].book[vm] == c && vm !in p[dst].book
    ensures TotalCharged(Moved(p, src, dst, vm, c)) == TotalCharged(p)
  {
    PlacementAdded(p, dst, vm, c);
    PlacementDeleted(PoolStep(p, On(dst, AddOp(vm, c))), src, vm, c);
  }

  lemma MovePlacements(p: Accounts, src: int, dst: int, vm: int, c: Charge)
    requires src in p && dst in p && src != dst
    requires vm in p[src].book && vm !in p[dst].book
    ensures var q := Moved(p, src, dst, vm, c);
            && q.Keys == p.Keys
            && q[dst].book == p[dst].book[vm := c] && q[src].book == Without(p[src].book, vm)
  {
  }

  /** A migration moves one placement and leaves the totals of the pool as they were. */
  lemma MoveConserves(p: Accounts, src: int, dst: int, vm: int, c: Charge)
    requires PoolExact(p) && src in p && dst in p && src != dst
    requires vm in p[src].book && p[src].book[vm] == c && vm !in p[dst].book
    ensures TotalCharged(Moved(p, src, dst, vm, c)) == TotalCharged(p)
    ensures TotalUsage(Moved(p, src, dst, vm, c)).Wrapped() == TotalUsage(p).Wrapped()
    ensures var q := Moved(p, src, dst, vm, c);
            && q.Keys == p.Keys
            && q[dst].book == p[dst].book[vm := c] && q[src].book == Without(p[src].book, vm)
  {
    MovePlacements(p, src, dst, vm, c);
    MoveIsExact(p, src, dst, vm, c);
    MoveCharges(p, src, dst, vm, c);
    ExactTotals(p);
    ExactTotals(Moved(p, src, dst, vm, c));
  }

  lemma PlacementAdded(p: Accounts, oid: int, vm: int, c: Charge)
    requires oid in p && vm !in p[oid].book
    ensures TotalCharged(PoolStep(p, On(oid, AddOp(vm, c)))) == TotalCharged(p).Plus(c)
  {
    ChargedAfter(p, oid, Step(p[oid], AddOp(vm, c)));
    SumPut(p[oid].book, vm, c);
  }

  lemma PlacementDeleted(p: Accounts, oid: int, vm: int, c: Charge)
    requires oid in p && vm in p[oid].book && p[oid].book[vm] == c
    ensures TotalCharged(PoolStep(p, On(oid, DelOp(vm, c)))) == TotalCharged(p).Minus(c)
  {
    ChargedAfter(p, oid, Step(p[oid], DelOp(vm, c)));
    SumDrop(p[oid].book, vm);
  }
}
