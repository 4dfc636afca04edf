/** The table of services, at most one for each name. */
module ServiceRegistries {
  import opened Sequences
  import opened Services

  const SERVICE_REGISTRY_INITIAL_CAPACITY: nat := 16

  ghost function ServiceNames(ss: seq<Service>): (r: seq<string>)
    ensures |r| == |ss|
    ensures forall i :: 0 <= i < |ss| ==> r[i] == ss[i].name
  {
    seq(|ss|, i requires 0 <= i < |ss| => ss[i].name)
  }

  class ServiceRegistry {
    const services: array<Service?>
    var count: nat
    ghost var table: seq<Service>

    ghost predicate Valid()
      reads this, services
    {
      && |table| == count <= services.Length == SERVICE_REGISTRY_INITIAL_CAPACITY
      && (forall i :: 0 <= i < count ==> services[i] == table[i])
      && (forall i :: count <= i < services.Length ==> services[i] == null)
      && NoDup(ServiceNames(table))
    }

    constructor ()
      ensures Valid() && fresh(services) && table == []
    {
      services := new Service?[SERVICE_REGISTRY_INITIAL_CAPACITY](_ => null);
      count := 0;
      table := [];
    }

    method FindIndex(name: string) returns (i: nat)
      requires Valid()
      ensures i == IndexOf(ServiceNames(table), name)
    {
      i := 0;
      while i < count
        invariant i <= count
        invariant forall k :: 0 <= k < i ==> table[k].name != name
      {
        if services[i].name == name {
          return i;
        }
        i := i + 1;
      }
    }

    method Register(service: Service) returns (ok: bool)
      requires Valid()
      modifies this, services
      ensures Valid()
      ensures ok == (|old(table)| < SERVICE_REGISTRY_INITIAL_CAPACITY && service.name !in ServiceNames(old(table)))
      ensures table == if ok then old(table) + [service] else old(table)
    {
      if count >= services.Length {
        return false;
      }
      var index := FindIndex(service.name);
      if index < count {
        return false;
      }
      NoDupAppend(ServiceNames(table), service.name);
      services[count] := service;
      count := count + 1;
      table := table + [service];
      assert ServiceNames(table) == ServiceNames(old(table)) + [service.name];
      return true;
    }

    method Get(name: string) returns (service: Service?)
      requires Valid()
      ensures var i := IndexOf(ServiceNames(table), name);
              service == if i < |table| then table[i] else null
    {
      var index := FindIndex(name);
      return if index < count then services[index] else null;
    }

    method GetAt(index: nat) returns (service: Service?)
      requires Valid()
      ensures service == if index < |table| then table[index] else null
    {
      return if index >= count then null else services[index];
    }

    method Unregister(name: string) returns (ok: bool)
      requires Valid()
      modifies this, services
      ensures Valid()
      ensures var i := IndexOf(ServiceNames(old(table)), name);
              && ok == (i < |old(table)|)
              && table == if ok then SwapRemove(old(table), i) else old(table)
      ensures name !in ServiceNames(table)
    {
      var index := FindIndex(name);
      if index == count {
        return false;
      }
      ghost var names := ServiceNames(table);
      SwapRemoveContents(names, index);
      var last := count - 1;
      services[index] := services[last];
      services[last] := null;
      count := count - 1;
      table := SwapRemove(table, index);
      assert ServiceNames(table) == SwapRemove(names, index);
      return true;
    }
  }
}
