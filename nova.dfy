/** The part of Nova and Keystone the billing agent talks to
    (billing/openstack/nova.py), as an in-memory state: the users of each
    tenant, the per-user and per-tenant quotas, the servers of each tenant,
    and a log of the quota updates that have been issued.  Authentication,
    tokens and the HTTP clients are not modelled. */
module Quotas {

  /** The two quota fields the agent reads and writes. */
  datatype Quota = Quota(cores: int, ram: int)

  predicate IsZero(q: Quota) { q.cores == 0 && q.ram == 0 }

  /** One call of `user_quota_update` or `tenant_quota_update`. */
  datatype QuotaUpdate =
    | UserQuotaUpdate(projectId: string, userId: string, ram: int, cores: int)
    | TenantQuotaUpdate(projectId: string, ram: int, cores: int)

  /** Everything the agent can observe of Nova and Keystone. */
  datatype NovaState = NovaState(
    defaultQuota: Quota,
    users: map<string, seq<string>>,
    userQuotas: map<(string, string), Quota>,
    tenantQuotas: map<string, Quota>,
    servers: map<string, seq<string>>,
    updates: seq<QuotaUpdate>)

  /** `user_list(tenant_id=...)`: the users of a tenant (none for an unknown
      tenant). */
  function UsersOf(s: NovaState, projectId: string): seq<string> {
    if projectId in s.users then s.users[projectId] else []
  }

  /** `user_quota_get`: the quota set for the user in the tenant, or the
      default quota when none was set. */
  function UserQuotaOf(s: NovaState, projectId: string, userId: string): Quota {
    if (projectId, userId) in s.userQuotas then s.userQuotas[(projectId, userId)] else s.defaultQuota
  }

  /** `tenant_quota_get`. */
  function TenantQuotaOf(s: NovaState, projectId: string): Quota {
    if projectId in s.tenantQuotas then s.tenantQuotas[projectId] else s.defaultQuota
  }

  /** `server_list`: the servers of a tenant. */
  function ServersOf(s: NovaState, projectId: string): seq<string> {
    if projectId in s.servers then s.servers[projectId] else []
  }

  /** The compute service. */
  class Nova {
    const defaultQuota: Quota
    var users: map<string, seq<string>>
    var userQuotas: map<(string, string), Quota>
    var tenantQuotas: map<string, Quota>
    var servers: map<string, seq<string>>
    /** Every quota update issued so far, in order. */
    var updates: seq<QuotaUpdate>

    function State(): NovaState
      reads this
    {
      NovaState(defaultQuota, users, userQuotas, tenantQuotas, servers, updates)
    }

    constructor (defaultQuota: Quota, users: map<string, seq<string>>,
                 servers: map<string, seq<string>>)
      ensures State() == NovaState(defaultQuota, users, map[], map[], servers, [])
    {
      this.defaultQuota := defaultQuota;
      this.users := users;
      this.servers := servers;
      userQuotas, tenantQuotas, updates := map[], map[], [];
    }

    /** `user_quota_update(cred, tenant_id, user_id, ram=..., cores=...)`. */
    method UserQuotaSet(projectId: string, userId: string, ram: int, cores: int)
      modifies this
      ensures State() == old(State()).(
        userQuotas := old(userQuotas)[(projectId, userId) := Quota(cores, ram)],
        updates := old(updates) + [UserQuotaUpdate(projectId, userId, ram, cores)])
    {
      userQuotas := userQuotas[(projectId, userId) := Quota(cores, ram)];
      updates := updates + [UserQuotaUpdate(projectId, userId, ram, cores)];
    }

    /** `tenant_quota_update(cred, tenant_id, ram=..., cores=...)`. */
    method TenantQuotaSet(projectId: string, ram: int, cores: int)
      modifies this
      ensures State() == old(State()).(
        tenantQuotas := old(tenantQuotas)[projectId := Quota(cores, ram)],
        updates := old(updates) + [TenantQuotaUpdate(projectId, ram, cores)])
    {
      tenantQuotas := tenantQuotas[projectId := Quota(cores, ram)];
      updates := updates + [TenantQuotaUpdate(projectId, ram, cores)];
    }
  }
}
