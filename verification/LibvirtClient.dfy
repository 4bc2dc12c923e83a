/** The in-memory hypervisor driver: every call is idempotent on a missing domain. */
module LibvirtClient {
  import opened Types

  class FakeLibvirtClient {
    var domains: map<DomainName, DomainState>

    constructor ()
      ensures domains == map[]
    {
      domains := map[];
    }

    /** `ok` says whether the driver accepts the definition. */
    method DefineAndStart(name: DomainName, ok: bool)
      modifies this
      ensures domains == if ok then old(domains)[name := On] else old(domains)
    {
      if ok {
        domains := domains[name := On];
      }
    }

    method GracefulShutdown(name: DomainName)
      modifies this
      ensures domains == SwitchedOff(old(domains), name)
    {
      if name in domains {
        domains := domains[name := ShutOff];
      }
    }

    method ForceDestroy(name: DomainName)
      modifies this
      ensures domains == SwitchedOff(old(domains), name)
    {
      if name in domains {
        domains := domains[name := ShutOff];
      }
    }

    method Undefine(name: DomainName)
      modifies this
      ensures domains == old(domains) - {name}
    {
      domains := domains - {name};
    }

    method GetDomainInfo(name: DomainName) returns (info: Option<DomainState>)
      ensures info.Some? <==> name in domains
      ensures info.Some? ==> info.value == domains[name]
    {
      info := if name in domains then Some(domains[name]) else None;
    }
  }

  function SwitchedOff(domains: map<DomainName, DomainState>, name: DomainName): map<DomainName, DomainState> {
    if name in domains then domains[name := ShutOff] else domains
  }
}
