# kylin-billing accounting core, in Dafny

This project models the "vdollar" accounting engine of kylin-billing and proves properties of it.

Every periodic pass of the billing agent works through each project in turn:

- It reads the project's resource samples from the metering store.
- It prices each sample per item (cpu per vCPU, memory per whole 512 MB block, both with a one-minute minimum). Only the time after the current price lock of the item is charged.
- It adds the `used` of the project's retired (soft-deleted) item records to get the lifetime total.
- It writes the per-item usage into the item ledger (`project_item_record`). It then writes the `int()`-truncated total into the account ledger (`project_account_record`), creating a 1000-vdollar account when the project has none.
- When the account is exhausted (amount below the total, or expired), it zeroes the Nova quotas of every user of the tenant and of the tenant itself.

The model has five modules:

- `Models` (`models.dfy`): rows as maps from column to value, and the generic record operations.
- `Ledger` (`ledger.dfy`): the database layer as a `Database` class over three in-memory tables, plus the pure queries.
- `Quotas` (`nova.dfy`): the Nova and Keystone state the enforcer reads and writes, as a `Nova` class.
- `Price` (`price.dfy`): the charge formulas, price-epoch clipping and price resolution. It also has the `Items` and `TotalProjectRecord` writers and the exhaustion enforcer.
- `Manager` (`manager.dfy`): `_check_project_bill` and `_check_all_project_bill`.

The source changes state step by step, so the operations that do so are methods on classes (`Database`, `Nova`, `PriceList`, `Items`, `TotalProjectRecord`, `BillingManager`). Each is proved against a pure function of the old state:

- `RecordWrite`, `ItemStep` and `ItemPass` for the item ledger.
- `AccountWrite` and `AccountOf` for the account ledger.
- `ZeroUsers` and `Enforce` for the enforcer.
- `PassValues`, `LifetimeTotal`, `ProjectBill`, `ProjectBillNova`, `AllTables` and `AllNova` for the manager.

The lemmas about those functions state what the source promises.

Modelling choices:

- **Timestamps** are whole seconds. The source compares them as fixed-width `"%Y-%m-%d %H:%M:%S"` strings, which order them chronologically.
- **Primary keys** are fresh integers handed out in order (`nextId`). They stand in for generated uuids.
- **`created_at`/`updated_at` defaults** (`default=datetime.utcnow()`, `onupdate=datetime.utcnow()`) are evaluated once, when the models module is imported. They are therefore a constant `loadTime` of the database. The writes that stamp those columns explicitly use the instant `now`.
- **The clock** is one `now` parameter per pass. The source reads it separately at each stamp.
- **The metering store** is a parameter: a map from project to its samples.
- **Python 2 arithmetic:**
  - `cpu_price` divides integers, which is floor division.
  - `memory_price` divides the float returned by `math.floor`, which is exact division (modelled with `real`).
  - `int()` truncates toward zero (`Price.Int`).

Where the code and the intuitive billing behaviour differ, the model follows the code:

- `item_record_create_for_project` forces `used = 0`. A created or re-created item record therefore starts at 0, not at the computed usage.
- The exhaustion test compares the account amount against the total just passed in, not against the stored `used`.
- The agent's item dict carries no `price`, except that for an item listed again after its record was created it carries that record's own price. So the retire-and-recreate branch of `item_record_update_for_project` is never taken from the agent. It is modelled and proved in `Ledger.Database.ItemRecordUpdateForProject`.
- The agent hands each item's own dict to the database functions, and they write into it. `item_record_create_for_project` sets its `used` to 0. An item listed twice among the supported items is therefore written a second time with `used = 0` once its record was created, which leaves the created record unchanged (`Price.ItemPassWrites`).
- `item_record_update_for_project` stamps `updated_at` into the caller's dict before it raises ProjectItemRecordNotFound. The record the agent then creates carries that stamp (`Price.CreatedRow`).

## Model

| member | source | states |
|---|---|---|
| Models.GetItemAfterSetItem | billing/db/sqlalchemy/models.py:55-59 | reading a column back after `__setitem__` gives the written value; every other column reads as before |
| Models.Update | billing/db/sqlalchemy/models.py:50-56 | `update(values)` leaves the object as the dict union: each supplied key set to its value, every other field unchanged |
| Models.UpdateKeepsTyped | billing/db/sqlalchemy/models.py:50-56 | updating a well-typed record with well-typed values keeps every column of its declared type |
| Models.NewRecord | billing/db/sqlalchemy/models.py:31-36 | a new record has its key, `deleted = False`, no `deleted_at`, and both timestamps at the import-time default |
| Models.Delete | billing/db/sqlalchemy/models.py:44-48 | soft delete sets `deleted` and stamps `deleted_at`; the record is kept and stays well typed |
| Models.DeleteKeeps | billing/db/sqlalchemy/models.py:45-46 | the two attribute assignments of `delete()` change no column other than `deleted` and `deleted_at`; the `updated_at` stamp of the flush that follows is added in `Ledger.Retired` |
| Ledger.First | billing/db/sqlalchemy/api.py:214-217 | `.first()` returns a matching row, and returns nothing exactly when no row matches; which row among several is a modelling choice (the earliest in table order) |
| Ledger.Select | billing/db/sqlalchemy/api.py:353-356 | `.all()` returns only matching rows of the table, and every matching row |
| Ledger.FirstAppend | billing/db/sqlalchemy/api.py:214-217 | appending a row changes the first match only when there was none and the new row matches |
| Ledger.ItemRecordCreateValues | billing/db/sqlalchemy/api.py:403-408 | the dict a new item record is built from has `used = 0`, the project and `created_at = now`, whatever was supplied |
| Ledger.CreateValuesKeep | billing/db/sqlalchemy/api.py:401-416 | every other supplied column of a new item record is stored as given |
| Ledger.Retired | billing/db/sqlalchemy/api.py:468-474 | a destroyed item record is soft deleted (no longer active) and stays well typed |
| Ledger.RetiredKeeps | billing/db/sqlalchemy/api.py:468-474 | retiring keeps every column but `deleted`, `deleted_at` and `updated_at` |
| Ledger.DestroyProjectRecords | billing/db/sqlalchemy/api.py:266-274 | the bulk update marks every record of the project (deleted or not) deleted, with `deleted_at` and `updated_at` now, and keeps every other column; records of other projects are unchanged and no row is removed |
| Ledger.Find | billing/db/sqlalchemy/api.py:152 | `str.find` returns the lowest position where the substring occurs, and -1 exactly when it occurs nowhere |
| Ledger.IsDbConnectionError | billing/db/sqlalchemy/api.py:146-154 | true exactly when the text contains "2002", "2003" or "2006" |
| Ledger.WithItem | billing/db/sqlalchemy/api.py:384-385 | "create the item when missing": afterwards the name is in the catalog; an existing name changes nothing; neither ledger is touched |
| Ledger.WithItemKeepsNames | billing/db/sqlalchemy/api.py:384-387 | entering a name leaves the catalog entry every other name resolves to, and the existing entries, as they were |
| Ledger.WithItemKeepsRecords | billing/db/sqlalchemy/api.py:384-393 | a new catalog entry has a fresh id, so the item records found by name are unchanged for every name |
| Ledger.AppendKeepsOneActive | billing/db/sqlalchemy/api.py:401-416 | adding a record for a (project, item) pair without an active record keeps at most one active record per pair |
| Ledger.RetireThenCreate | billing/db/sqlalchemy/api.py:428-432 | once the active record of the pair is retired, the pair has no active record left, so the re-created one is the only one |
| Ledger.OnlyActiveAccount | billing/db/sqlalchemy/api.py:211-222 | with at most one active account per project, the active account `record_get_for_project` finds is the only one |
| Ledger.Database.RecordGetForProject | billing/db/sqlalchemy/api.py:211-222 | returns a record of the table with the given project and `deleted` state; NotFound (ProjectRecordNotFound) exactly when there is none |
| Ledger.Database.RecordCreateForProject | billing/db/sqlalchemy/api.py:225-237 | exactly one account record is appended: a new record updated with the supplied columns, the project and both stamps; nothing else changes |
| Ledger.Database.RecordUpdateForProject | billing/db/sqlalchemy/api.py:240-250 | with an active account, only the supplied keys plus `updated_at` change in it and all other records are unchanged; without one, NotFound and no change |
| Ledger.Database.RecordDestroyForProject | billing/db/sqlalchemy/api.py:266-274 | the account table becomes `DestroyProjectRecords` of it: soft deletion only, no row removed |
| Ledger.Database.ItemGetByName | billing/db/sqlalchemy/api.py:306-312 | a catalog entry with that name, or None exactly when no entry has it |
| Ledger.Database.ItemCreate | billing/db/sqlalchemy/api.py:315-321 | appends one catalog entry with the name and a fresh key; nothing else changes |
| Ledger.Database.GetAllItemRecordForProject | billing/db/sqlalchemy/api.py:350-361 | NotFound exactly when no record of the project is in the requested state; otherwise all such records and only those |
| Ledger.Database.ItemRecordGetForProject | billing/db/sqlalchemy/api.py:364-377 | a record of the project for the catalog id in the requested state, or NotFound exactly when there is none |
| Ledger.Database.GetProjectItemRecordByName | billing/db/sqlalchemy/api.py:380-398 | afterwards the item is in the catalog whether or not it was before; other names resolve as before; the result is the records for the name, NotFound exactly when there are none |
| Ledger.Database.EnsureItem | billing/db/sqlalchemy/api.py:384-385 | the tables become `WithItem` of the old ones |
| Ledger.Database.ItemRecordCreateForProject | billing/db/sqlalchemy/api.py:401-416 | exactly one record is added, with a fresh key, `used = 0` whatever was supplied, the project and `created_at = now`; one active record per pair is kept |
| Ledger.Database.ItemRecordDestroyForProject | billing/db/sqlalchemy/api.py:468-474 | the record with that id is rewritten as `Retired` in place; no row is removed and the other tables are unchanged |
| Ledger.Database.ItemRecordUpdateForProject | billing/db/sqlalchemy/api.py:419-439 | NotFound without an active record; with a truthy price that differs from the stored one, the old record is retired and a new one with `used = 0` appended; otherwise the supplied columns and `updated_at` are written in place and no record is added; one active record per pair is kept |
| Ledger.Database.RetireAndRecreate | billing/db/sqlalchemy/api.py:428-434 | the price-change branch: the active record is retired and one new record is appended |
| Ledger.Database.RewriteItemRecord | billing/db/sqlalchemy/api.py:435-439 | the in-place branch: the record becomes the old record updated with the supplied columns |
| Quotas.Nova.UserQuotaSet | billing/openstack/nova.py:121-123 | the user's quota in the tenant becomes the given cores and ram, and the update is logged |
| Quotas.Nova.TenantQuotaSet | billing/openstack/nova.py:113-115 | the tenant quota becomes the given cores and ram, and the update is logged |
| Price.Int | billing/agent/manager.py:159 | `int()` truncates toward zero: the result is within one of the argument, on the side of 0 |
| Price.CpuCharge | billing/agent/price.py:66-71 | 60 times the cpu charge is the floor of value × billed seconds × price, within 60 |
| Price.MemoryBlocks | billing/agent/price.py:78 | the number of whole 512 MB blocks in the value |
| Price.MemoryCharge | billing/agent/price.py:73-78 | 60 times the memory charge is blocks × billed seconds × price exactly |
| Price.Charge | billing/agent/price.py:55-64 | any item other than cpu and memory costs 0 |
| Price.ChargeMinimumMinute | billing/agent/price.py:69-70 | a duration below 60 s costs exactly what 60 s costs, for every item |
| Price.CpuChargeZero | billing/agent/price.py:71 | no vCPUs or no price gives no cpu charge |
| Price.CpuChargeMonotone | billing/agent/price.py:71 | the cpu charge does not decrease when the value, the duration or the price grows (non-negative counts and prices) |
| Price.MemoryChargeZeroBelowUnit | billing/agent/price.py:78 | memory below 512 MB costs 0 |
| Price.MemoryChargeMonotone | billing/agent/price.py:78 | the memory charge does not decrease when the memory size grows |
| Price.ChargeNonNegative | billing/agent/price.py:55-78 | non-negative amounts at non-negative prices cost a non-negative sum |
| Price.PriceList.GetPrice | billing/agent/price.py:55-64 | the fields are set to the inputs (seconds raised to 60 for cpu and memory); the charge is `Charge` of the inputs |
| Price.PriceList.CpuPrice | billing/agent/price.py:66-71 | the stored duration is raised to at least 60 s and the charge is `CpuCharge` of the stored inputs |
| Price.PriceList.MemoryPrice | billing/agent/price.py:73-78 | the stored duration is raised to at least 60 s and the charge is `MemoryCharge` of the stored inputs |
| Price.ChargedSeconds | billing/agent/price.py:124-130 | nothing is billed exactly when a lock exists and the sample ends before it; a lock strictly inside the sample bills from the lock; no lock, a lock at or before the start, or a lock equal to the end (the test is strict) bills the whole sample; never more than the sample |
| Price.ProjectItemPrice | billing/agent/price.py:102-117 | a lock exactly when the name is in the catalog and the project has an active record for that item's catalog id; the price and lock then come from the first such record: its price (the configured one when 0 or unset) and its `created_at`; otherwise the configured price (0 when unconfigured) and no lock |
| Price.Usage | billing/agent/price.py:119-134 | non-negative for non-negative inputs; 0 when the sample ends before the lock |
| Price.PriceCounter.ItemUsage | billing/agent/price.py:119-134 | the usage is `Usage` of the sample at the price and lock resolved from the ledger |
| Price.WrittenRow | billing/agent/price.py:163-171 | the active record after the in-place write holds the truncated usage, the catalog id and `updated_at = now` |
| Price.CreatedRow | billing/agent/price.py:174-182 | the record created on NotFound belongs to the project and catalog id, is active, has `used = 0`, the configured price, `until = now + 1 day` and both stamps at now |
| Price.RecordWrite | billing/agent/price.py:169-182 | the item write leaves the catalog and the account ledger alone and removes no record |
| Price.RecordWriteCases | billing/agent/price.py:163-182 | the dicts the agent passes carry no price and no key, so no price epoch ends; the write is the in-place update or the append of the created record |
| Price.RecordWriteFrame | billing/agent/price.py:169-182 | the write for one catalog id leaves the records of every other catalog id, and which of them is active, alone |
| Price.RecordWriteWrites | billing/agent/price.py:169-182 | afterwards the pair has an active record: the old one written in place, or a newly created one |
| Price.RecordWriteOthers | billing/agent/price.py:169-182 | records of other projects are unchanged; every added record belongs to the project and starts at `used = 0` |
| Price.ItemStepFrame | billing/agent/price.py:158-184 | a step for one item leaves another item's catalog entry, active record and records alone |
| Price.ItemPassFrame | billing/agent/price.py:157-184 | a pass over items not including a name leaves that name's catalog entry and records alone |
| Price.ItemStepWrites | billing/agent/price.py:158-184 | the step for an item with usage writes it as `ItemWritten` says |
| Price.ItemWrittenCarries | billing/agent/price.py:157-184 | what was written for an item survives a later step for another item |
| Price.ItemPassWrites | billing/agent/price.py:157-184 | every resource with usage, whether listed once or several times, ends with an active record: the old one with the truncated usage and the catalog id, or a new one with `used = 0`, the configured price and `until = now + 1 day`; the caller's dict entry ends at the truncated usage in the first case and at 0 in the second |
| Price.StepValues | billing/agent/price.py:163-167 | one iteration changes only the current item's entry of the caller's dict, never its keys |
| Price.ItemPassValuesFrame | billing/agent/price.py:157-167 | the pass keeps the dict's keys and leaves the entry of every item it does not list unchanged |
| Price.ItemStepRepeat | billing/agent/price.py:163-173 | a further iteration for an item already written reads the entry the earlier one left in the dict (the truncated usage, or 0 after a create) and leaves both the record and that entry as they were |
| Price.ItemPassFrameOthers | billing/agent/price.py:157-184 | the pass leaves the account ledger and other projects' records alone, only appends to the catalog, and every added record belongs to the project |
| Price.ItemPassCatalog | billing/agent/price.py:157-184 | every resource is in the catalog after the pass |
| Price.Items.ProjectItemRecordUpdate | billing/agent/price.py:157-184 | the tables become `ItemPass` and the caller's dict `ItemPassValues` of the old ones; at most one active record per pair is kept |
| Price.Items.WriteItem | billing/agent/price.py:158-184 | one loop iteration: the tables become `ItemStep` and the dict `StepValues` of the old ones |
| Price.Items.WriteUsage | billing/agent/price.py:164-184 | the item's dict entry is truncated in place and the record written as `RecordWrite` says; the entry is left at 0 exactly when the pair had no active record, because the create's `used = 0` is written into the caller's dict |
| Price.Items.WriteRecord | billing/agent/price.py:169-182 | the update, or on NotFound the create, gives `RecordWrite` of the old tables; it reports a create exactly when the pair had no active record |
| Price.Items.UpdateRecord | billing/agent/price.py:169-173 | NotFound exactly when the pair has no active record, in which case nothing changes; otherwise the in-place write |
| Price.Items.CreateRecord | billing/agent/price.py:174-182 | for a pair without an active record, the created record is appended as `RecordWrite` says |
| Price.ZeroUsersFrame | billing/agent/price.py:206-219 | the user loop changes only the listed users' quotas in the tenant and only appends to the update log |
| Price.ZeroUsersZeroes | billing/agent/price.py:206-219 | after the user loop every listed user has zero cores and ram |
| Price.ZeroUsersIssued | billing/agent/price.py:206-219 | every update the loop issues zeroes a listed user whose quota was not already zero |
| Price.ZeroUsersCovers | billing/agent/price.py:206-219 | every listed user whose quota was not zero gets an update |
| Price.ZeroUsersNoop | billing/agent/price.py:206-219 | over users already at zero the loop issues nothing and changes nothing |
| Price.EnforceZeroes | billing/agent/price.py:204-237 | afterwards every user of the tenant and the tenant are at zero; users, servers and every other quota are unchanged |
| Price.EnforceUpdates | billing/agent/price.py:204-231 | only appends to the log; a user update only for a non-zero user quota; the tenant update exactly when the tenant quota was not zero |
| Price.EnforceIdempotent | billing/agent/price.py:204-237 | running the enforcer twice is running it once: the second run issues no update |
| Price.InitialAccountShape | billing/agent/price.py:246-250 | the initial account dict is well typed and has the amount, `used` and `until` |
| Price.CreatedAccountFields | billing/agent/price.py:245-251 | a created account holds 1000, `used = 0`, the initial description and `until = now + 1 day`; it is then exhausted exactly when the total exceeds 1000 |
| Price.WrittenAccountFields | billing/db/sqlalchemy/api.py:240-250 | the account written in place has `updated_at = now`, the supplied columns, and every other column kept |
| Price.AccountWriteActive | billing/agent/price.py:239-254 | the write leaves the item tables alone and removes no account; unless the written columns move or delete the account, the project then has an active account, so the read-back finds it |
| Price.AccountWriteOthers | billing/agent/price.py:239-254 | every other project keeps the account it had |
| Price.AccountCreated | billing/agent/price.py:245-251 | without an active account, one new account with the initial values is appended and is the one read back |
| Price.AccountUpdated | billing/agent/price.py:240-244 | with an active account, it gets the supplied columns and `updated_at`, every other column kept, and exhaustion is judged on its stored amount and expiry |
| Price.TotalProjectRecord.HandleProjectBillingExhausted | billing/agent/price.py:204-237 | Nova becomes `Enforce` of the old state; no server is deleted; the tenant's servers are listed |
| Price.TotalProjectRecord.ProjectAccountUpdate | billing/agent/price.py:239-260 | the tables become `AccountWrite` of the old ones; the record read back is the project's active account; the enforcer runs exactly when that account's amount is below the passed total or `now` is past its `until` |
| Price.TotalProjectRecord.CheckAccount | billing/agent/price.py:254-260 | the enforcer runs exactly when the read-back succeeded and the account is exhausted |
| Price.TotalProjectRecord.WriteAccount | billing/agent/price.py:240-252 | the update, or on ProjectRecordNotFound the create from the initial dict, gives `AccountWrite` of the old tables |
| Manager.PassValues | billing/agent/manager.py:111-137 | after the sample loop the dict holds exactly the supported items |
| Manager.SampleWithoutCreationSkipped | billing/agent/manager.py:119-125 | a sample without `created_at` adds nothing to any item |
| Manager.OnlyCpuAndMemoryUsed | billing/agent/manager.py:128-137 | an item other than cpu and memory accumulates 0 |
| Manager.ItemUsedAppend | billing/agent/manager.py:114-137 | the usage of a run of samples is the sum over its parts |
| Manager.ItemUsedNonNegative | billing/agent/manager.py:114-137 | non-negative metadata at a non-negative price give non-negative usage |
| Manager.PassValuesSums | billing/agent/manager.py:111-137 | each supported item's entry starts at 0 and ends as the sum of `item_usage` over the qualifying samples, with vcpus for cpu and memory_mb for memory |
| Manager.AddUsageEntry | billing/agent/manager.py:128-137 | one sample adds its cpu usage to cpu, its memory usage to memory, and nothing to any other item |
| Manager.LifetimeTotalAppend | billing/agent/manager.py:140-152 | the lifetime total over a run of items is the sum over its parts |
| Manager.LifetimeTotalNoRetired | billing/agent/manager.py:144-152 | an item without retired records (ProjectItemRecordNotFound) adds exactly its usage of the pass |
| Manager.TotalValuesShape | billing/agent/manager.py:159 | the total dict is well typed, holds `used`, and has no key, project or deleted column |
| Manager.CatalogPassFrame | billing/agent/manager.py:144-147 | the lookups by name only append to the catalog and touch neither ledger |
| Manager.ProjectBillItems | billing/agent/manager.py:154-162 | after one project's bill the catalog and the item records are those the item write left: the item ledger is written first and the account write touches neither |
| Manager.ProjectBillAccounts | billing/agent/manager.py:154-162 | after one project's bill the project has an active account, and every other project keeps the account it had |
| Price.AccountWriteOneActive | billing/agent/price.py:239-260 | the account write keeps at most one active account per project: it creates one only when the project has none, and updates neither the project nor the `deleted` flag |
| Manager.ProjectBillOneActive | billing/agent/manager.py:107-162 | one project's bill keeps at most one active account per project |
| Manager.AllTablesOneActive | billing/agent/manager.py:95-101 | the pass over all projects keeps at most one active account per project |
| Manager.AllTablesOneAccount | billing/agent/manager.py:95-101 | from a ledger with at most one active account per project, every listed project ends the pass with exactly one |
| Manager.AllTablesListed | billing/agent/manager.py:95-101 | after the pass every listed project has an active account |
| Manager.AllTablesUnlisted | billing/agent/manager.py:95-101 | after the pass every unlisted project keeps the account it had |
| Manager.AllBillsStep | billing/agent/manager.py:99-101 | each project is billed on the state the earlier projects left |
| Manager.BillingManager.CheckAllProjectBill | billing/agent/manager.py:95-101 | the ledger becomes `AllTables` and Nova `AllNova` of the old states: each project's bill in turn, on the state the earlier ones left |
| Manager.BillingManager.CheckProjectBill | billing/agent/manager.py:107-162 | the ledger becomes `ProjectBill`: the catalog pass, the item write of the accumulated usage, then the account write of `int(total)`; Nova becomes `ProjectBillNova`, the enforcer exactly when the account read back is exhausted |
| Manager.BillingManager.WriteBill | billing/agent/manager.py:154-162 | the item ledger is written before the account ledger, and the enforcer runs exactly when the resulting account is exhausted against the total |
| Manager.BillingManager.AccumulateUsage | billing/agent/manager.py:111-137 | the dict is `PassValues` of the samples, read against the unchanged ledger |
| Manager.BillingManager.ZeroValues | billing/agent/manager.py:111-113 | every supported item starts at 0 |
| Manager.BillingManager.AddSample | billing/agent/manager.py:116-137 | one sample's cpu and memory usage are added as `SampleStep` says |
| Manager.BillingManager.LifetimeUsed | billing/agent/manager.py:139-152 | the total is `LifetimeTotal` over the tables before the loop; the catalog gains the missing names |
| Manager.BillingManager.RetiredUsed | billing/agent/manager.py:142-151 | the sum of `used` over the item's retired records, 0 on ProjectItemRecordNotFound; the name is entered in the catalog |
| Manager.BillingManager.SumUsed | billing/agent/manager.py:148-149 | the sum of `used` over the given records |

## Left out

- SQLAlchemy engines, sessions and transactions, the MySQL ping listener and the retry loop of `wrap_db_error`: library plumbing and I/O. Each database operation is one committed change to in-memory tables.
- Schema migrations: DDL, with no effect on the accounting.
- The Keystone and Nova HTTP clients and the token creation in `init_host`: network I/O. The enforcer acts on the `Quotas.Nova` state instead. The `BillingManager` constructor keeps only the parts of `init_host` the pass uses (the supported items and the price counter sharing the ledger).
- The REST layer, service start-up and packaging: they are outside the accounting engine.
- `periodic_tasks` and the timer that drives it: scheduling. `CheckAllProjectBill` is one pass.
- Failure isolation between projects: the `try` of `_check_all_project_bill` wraps the whole loop, and its handler refers to names that are not defined. The pass is modelled as the plain sequential loop, without errors.
- Floating point: sums are exact `real` values, and `int()` truncation is applied at the write boundary. Float rounding is not modelled.
- `PriceList.get_project_item_price`: an unused duplicate of the `PriceCounter` version.
- The configured price fallback computed in `cpu_price` and `memory_price` is never used, because the formulas multiply by the stored price. `Price.PriceList.GetPrice` therefore requires a price for those two items. `item_usage` always supplies one.
- `CONF.get('<item>_price', 0)` is a map lookup with 0 for an unregistered option. The option values are integers.
- `timeutils.parse_interval` is not part of this model. It is taken to be `end - start` in seconds.
- Server deletion is commented out in the source. No server is deleted, and the servers are only listed.
- Log calls, and the warning for samples without `created_at`.
- User account records, the event-log stubs, and the other database functions the agent does not call (`*_by_id`, `item_destroy`, `get_all_item`, the user-record functions).
- Ledger.First: the queries behind `.first()` have no `order_by` and the keys are uuids, so the database promises no order among several matching rows. The model takes the earliest in table order. That choice cannot change a result where at most one row matches: a lookup by primary key, the active item record of a (project, item) pair (`Ledger.OneActivePerItem`), and the active account of a project (`Ledger.OneActivePerProject`, kept by `Price.AccountWriteOneActive` and `Manager.AllTablesOneActive`).
- NULL columns: an unset column reads as `None` through `GetItem` and as 0 or the empty string in comparisons. The Python 2 ordering of `None` against integers is not modelled.
- Every `requires` on a database method that demands supplied columns (`Id` absent, `Amount`/`Used`/`Until` present for accounts, an existing `item_id` for item records): the source passes such dicts from the agent. What the database does with dicts missing those columns is not modelled.
- Price.TotalProjectRecord.ProjectAccountUpdate: requires `used` in the total dict. The source raises a KeyError without it.
- Price.TotalProjectRecord.ProjectAccountUpdate: the ProjectRecordNotFound that the read-back would raise is returned as NotFound. The agent's own dict never makes that happen (`Price.AccountWriteActive`).
- Manager.BillingManager.CheckProjectBill: the manager does not read its per-item dicts after the `Items` writer, so their final state (`Price.ItemPassValues`) is not part of `ProjectBill`.
- Price.Items.ProjectItemRecordUpdate: the caller's per-item dict is modelled by its `used` entry. The other keys that the loop and the database functions write into it (`item_id`, `updated_at`, and after a create `until`, `price`, `created_at`, `project_id`) reach the ledger again only for an item listed twice. The repeated in-place write then stores values the record already holds, because the model has one `now` per pass.
