/** Capacity accounting: the counters of a host's share, the set of VMs behind them, and the pool of hosts. */
module Capacity {
  import opened Ledger

  // ---------------------------------------------------------------------------------------------
  // Values
  // ---------------------------------------------------------------------------------------------

  /** The counters of a share and its limits. */
  datatype Share = Share(usage: Charge, running: int, max: Charge)

  datatype HostState = HostState(vms: set<int>, share: Share)

  function Add(s: Share, c: Charge): Share {
    s.(usage := s.usage.Plus(c).Wrapped(), running := Wrap(s.running + 1))
  }

  function Update(s: Share, c: Charge): Share {
    s.(usage := s.usage.Plus(c).Wrapped())
  }

  function Del(s: Share, c: Charge): Share {
    s.(usage := s.usage.Minus(c).Wrapped(), running := Wrap(s.running - 1))
  }

  predicate Test(s: Share, c: Charge) {
    && Wrap(s.max.cpu - s.usage.cpu) >= c.cpu
    && Wrap(s.max.mem - s.usage.mem) >= c.mem
    && Wrap(s.max.disk - s.usage.disk) >= c.disk
  }

  function AddCapacity(h: HostState, vm: int, c: Charge): HostState {
    if vm in h.vms then h else HostState(h.vms + {vm}, Add(h.share, c))
  }

  function DelCapacity(h: HostState, vm: int, c: Charge): HostState {
    if vm in h.vms then HostState(h.vms - {vm}, Del(h.share, c)) else h
  }

  function UpdateCapacity(h: HostState, c: Charge): HostState {
    h.(share := Update(h.share, c))
  }

  // ---------------------------------------------------------------------------------------------
  // Objects
  // ---------------------------------------------------------------------------------------------

  class HostShare {
    var diskUsage: int
    var memUsage: int
    var cpuUsage: int
    var maxDisk: int
    var maxMem: int
    var maxCpu: int
    var runningVms: int

    function Now(): Share
      reads this
    {
      Share(Charge(cpuUsage, memUsage, diskUsage), runningVms, Charge(maxCpu, maxMem, maxDisk))
    }

    constructor (maxDisk: int, maxMem: int, maxCpu: int)
      ensures Now() == Share(NOTHING, 0, Charge(maxCpu, maxMem, maxDisk))
    {
      diskUsage, memUsage, cpuUsage, runningVms := 0, 0, 0, 0;
      this.maxDisk, this.maxMem, this.maxCpu := maxDisk, maxMem, maxCpu;
    }

    method AddVm(cpu: int, mem: int, disk: int)
      modifies this
      ensures Now() == Add(old(Now()), Charge(cpu, mem, disk))
    {
      UpdateVm(cpu, mem, disk);
      runningVms := Wrap(runningVms + 1);
    }

    method UpdateVm(cpu: int, mem: int, disk: int)
      modifies this
      ensures Now() == Update(old(Now()), Charge(cpu, mem, disk))
    {
      cpuUsage := Wrap(cpuUsage + cpu);
      memUsage := Wrap(memUsage + mem);
      diskUsage := Wrap(diskUsage + disk);
    }

    method DelVm(cpu: int, mem: int, disk: int)
      modifies this
      ensures Now() == Del(old(Now()), Charge(cpu, mem, disk))
    {
      cpuUsage := Wrap(cpuUsage - cpu);
      memUsage := Wrap(memUsage - mem);
      diskUsage := Wrap(diskUsage - disk);
      runningVms := Wrap(runningVms - 1);
    }

    predicate TestVm(cpu: int, mem: int, disk: int)
      reads this
      ensures TestVm(cpu, mem, disk) == Test(Now(), Charge(cpu, mem, disk))
    {
      && Wrap(maxCpu - cpuUsage) >= cpu
      && Wrap(maxMem - memUsage) >= mem
      && Wrap(maxDisk - diskUsage) >= disk
    }
  }

  class ObjectCollection {
    var ids: set<int>

    constructor ()
      ensures ids == {}
    {
      ids := {};
    }

    method AddId(id: int) returns (rc: int)
      modifies this
      ensures ids == old(ids) + {id}
      ensures rc == if id in old(ids) then -1 else 0
    {
      rc := if id in ids then -1 else 0;
      ids := ids + {id};
    }

    method DelId(id: int) returns (rc: int)
      modifies this
      ensures ids == old(ids) - {id}
      ensures rc == if id in old(ids) then 0 else -1
    {
      rc := if id in ids then 0 else -1;
      ids := ids - {id};
    }
  }

  /** A host: its VM set and its share, both members of the object. */
  class Host {
    const vmCollection: ObjectCollection
    const hostShare: HostShare

    ghost function Now(): HostState
      reads vmCollection, hostShare
    {
      HostState(vmCollection.ids, hostShare.Now())
    }

    ghost function Parts(): set<object> { {vmCollection, hostShare} }

    constructor (maxDisk: int, maxMem: int, maxCpu: int)
      ensures fresh(Parts())
      ensures Now() == HostState({}, Share(NOTHING, 0, Charge(maxCpu, maxMem, maxDisk)))
    {
      vmCollection := new ObjectCollection();
      hostShare := new HostShare(maxDisk, maxMem, maxCpu);
    }

    method AddVm(vm: int, cpu: int, mem: int, disk: int)
      modifies Parts()
      ensures Now() == AddCapacity(old(Now()), vm, Charge(cpu, mem, disk))
    {
      var rc := vmCollection.AddId(vm);
      if rc == 0 {
        hostShare.AddVm(cpu, mem, disk);
      } else {
        assert vmCollection.ids == old(vmCollection.ids);
      }
    }

    method DelVm(vm: int, cpu: int, mem: int, disk: int)
      modifies Parts()
      ensures Now() == DelCapacity(old(Now()), vm, Charge(cpu, mem, disk))
    {
      var rc := vmCollection.DelId(vm);
      if rc == 0 {
        hostShare.DelVm(cpu, mem, disk);
      } else {
        assert vmCollection.ids == old(vmCollection.ids);
      }
    }

    method UpdateVm(cpu: int, mem: int, disk: int)
      modifies hostShare
      ensures Now() == UpdateCapacity(old(Now()), Charge(cpu, mem, disk))
    {
      hostShare.UpdateVm(cpu, mem, disk);
    }
  }

  type Pool = map<int, HostState>

  function PoolAdd(p: Pool, oid: int, vm: int, c: Charge): Pool {
    if oid in p then p[oid := AddCapacity(p[oid], vm, c)] else p
  }

  function PoolDel(p: Pool, oid: int, vm: int, c: Charge): Pool {
    if oid in p then p[oid := DelCapacity(p[oid], vm, c)] else p
  }

  function PoolUpdate(p: Pool, oid: int, c: Charge): Pool {
    if oid in p then p[oid := UpdateCapacity(p[oid], c)] else p
  }

  /** A host is dropped when its counter of running VMs is not positive and the data base agrees. */
  function PoolDrop(p: Pool, oid: int, dbOk: bool): Pool {
    if oid in p && p[oid].share.running <= 0 && dbOk then Without(p, oid) else p
  }

  class HostPool {
    var hosts: map<int, Host>

    ghost function Collections(): set<object>
      reads this
    {
      set oid | oid in hosts :: hosts[oid].vmCollection
    }

    ghost function Shares(): set<object>
      reads this
    {
      set oid | oid in hosts :: hosts[oid].hostShare
    }

    /** Different hosts have nothing in common. */
    ghost predicate Valid()
      reads this
    {
      forall a, b | a in hosts && b in hosts && a != b ::
        hosts[a].vmCollection != hosts[b].vmCollection && hosts[a].hostShare != hosts[b].hostShare
    }

    ghost function Now(): Pool
      reads this, Collections(), Shares()
    {
      map oid | oid in hosts :: hosts[oid].Now()
    }

    method AddVm(oid: int, vm: int, cpu: int, mem: int, disk: int)
      requires Valid()
      modifies Collections(), Shares()
      ensures Now() == PoolAdd(old(Now()), oid, vm, Charge(cpu, mem, disk))
    {
      if oid in hosts {
        hosts[oid].AddVm(vm, cpu, mem, disk);
        assert forall o | o in hosts && o != oid :: hosts[o].Now() == old(hosts[o].Now());
      }
    }

    method DelVm(oid: int, vm: int, cpu: int, mem: int, disk: int)
      requires Valid()
      modifies Collections(), Shares()
      ensures Now() == PoolDel(old(Now()), oid, vm, Charge(cpu, mem, disk))
    {
      if oid in hosts {
        hosts[oid].DelVm(vm, cpu, mem, disk);
        assert forall o | o in hosts && o != oid :: hosts[o].Now() == old(hosts[o].Now());
      }
    }

    /** Fails on a host that counts running VMs, and when the data base does. */
    method Drop(oid: int, dbOk: bool) returns (rc: int)
      requires Valid() && oid in hosts
      modifies this
      ensures Valid() && Now() == PoolDrop(old(Now()), oid, dbOk)
      ensures rc == 0 <==> oid !in hosts
      ensures rc == 0 || rc == -1
    {
      if hosts[oid].hostShare.runningVms > 0 || !dbOk {
        rc := -1;
      } else {
        hosts := Without(hosts, oid);
        rc := 0;
      }
    }
  }
}
