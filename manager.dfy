/** The billing agent's periodic pass (billing/agent/manager.py): for each
    project, the usage of its metering samples is accumulated per item,
    the `used` of its retired item records is added to give the lifetime
    total, the per-item usage is written into the item ledger, and the
    truncated total into the account ledger, which may trigger the
    exhaustion enforcer. */
module Manager {
  import opened Models
  import opened Ledger
  import opened Quotas
  import opened Price

  /** One resource sample from the metering store: the `vcpus` and
      `memory_mb` metadata (0 when missing), the `created_at` metadata (None
      when missing) and the sample's timestamp. */
  datatype Sample = Sample(vcpus: int, memoryMb: int, createdAt: Option<int>, timestamp: int)

  // ---------------------------------------------------------------- the per-item accumulation

  /** The metadata value `item_usage` is called with: the vCPU count for
      cpu, the memory size for memory. */
  function MeteredValue(item: string, r: Sample): int {
    if item == "cpu" then r.vcpus else r.memoryMb
  }

  /** What one sample adds to the usage of `item`: the `item_usage` charge
      for cpu and memory when the sample has a creation time, nothing
      otherwise.  Prices are resolved against the tables `s` as they were
      when the pass began. */
  function SampleUsage(s: Tables, conf: Config, projectId: string, item: string, r: Sample): real {
    if (item == "cpu" || item == "memory") && r.createdAt.Some? then
      Usage(item, MeteredValue(item, r), r.createdAt.value, r.timestamp, ProjectItemPrice(s, conf, item, projectId))
    else 0.0
  }

  /** The usage of `item` after the sample loop over `samples`. */
  function ItemUsed(s: Tables, conf: Config, projectId: string, item: string, samples: seq<Sample>): real
    decreases |samples|
  {
    if samples == [] then 0.0
    else ItemUsed(s, conf, projectId, item, samples[..|samples| - 1]) +
         SampleUsage(s, conf, projectId, item, samples[|samples| - 1])
  }

  /** `values[item] = {"used": 0}` for every supported item. */
  function InitialValues(items: seq<string>): map<string, real> {
    map item | item in items :: 0.0
  }

  /** `values[item]["used"] += using` for an item the dict holds. */
  function AddUsage(values: map<string, real>, item: string, using: real): map<string, real> {
    if item in values then values[item := values[item] + using] else values
  }

  /** One iteration of the sample loop: a sample with a creation time adds
      its cpu usage, then its memory usage, each for an item the dict holds. */
  function SampleStep(s: Tables, conf: Config, projectId: string, values: map<string, real>, r: Sample)
    : map<string, real>
  {
    if r.createdAt.None? then values
    else AddUsage(AddUsage(values, "cpu", SampleUsage(s, conf, projectId, "cpu", r)),
                  "memory", SampleUsage(s, conf, projectId, "memory", r))
  }

  /** The `values` dict after the sample loop over `samples`. */
  function PassValues(s: Tables, conf: Config, items: seq<string>, projectId: string, samples: seq<Sample>)
    : (r: map<string, real>)
    ensures forall item :: item in r <==> item in items
    decreases |samples|
  {
    if samples == [] then InitialValues(items)
    else SampleStep(s, conf, projectId, PassValues(s, conf, items, projectId, samples[..|samples| - 1]),
                    samples[|samples| - 1])
  }

  /** The `used` of a set of retired item records. */
  function DeletedUsed(rows: seq<Row>): int
    decreases |rows|
  {
    if rows == [] then 0 else DeletedUsed(rows[..|rows| - 1]) + IntField(rows[|rows| - 1], Used)
  }

  /** The lifetime total over `items`: the usage of this pass plus the `used`
      of every retired record of the item (none when the project has no
      retired record for it). */
  function LifetimeTotal(s: Tables, items: seq<string>, projectId: string, values: map<string, real>): real
    requires forall i :: 0 <= i < |items| ==> items[i] in values
    decreases |items|
  {
    if items == [] then 0.0
    else
      var item := items[|items| - 1];
      LifetimeTotal(s, items[..|items| - 1], projectId, values) + values[item] +
      DeletedUsed(RecordsByItemName(s.items, s.itemRecords, projectId, item, true)) as real
  }

  /** The catalog after `get_project_item_record_by_name` has been called for
      each of `items`: every missing name is entered. */
  function CatalogPass(s: Tables, items: seq<string>, loadTime: int): Tables
    decreases |items|
  {
    if items == [] then s else WithItem(CatalogPass(s, items[..|items| - 1], loadTime), items[|items| - 1], loadTime)
  }

  // ---------------------------------------------------------------- one project's bill

  /** The total written into the account: `int(total_used)`. */
  function BillTotal(s: Tables, conf: Config, items: seq<string>, projectId: string, samples: seq<Sample>): int {
    Int(LifetimeTotal(s, items, projectId, PassValues(s, conf, items, projectId, samples)))
  }

  /** The tables after `_check_project_bill`: the catalog pass, then the
      item ledger write, then the account ledger write. */
  function ProjectBill(s: Tables, conf: Config, items: seq<string>, projectId: string, samples: seq<Sample>,
                       now: int, loadTime: int): Tables
  {
    var values := PassValues(s, conf, items, projectId, samples);
    var t := ItemPass(CatalogPass(s, items, loadTime), conf, projectId, items, values, now, loadTime);
    AccountWrite(t, projectId, map[Used := IntVal(BillTotal(s, conf, items, projectId, samples))], now, loadTime)
  }

  /** Nova after `_check_project_bill`: the enforcer has run exactly when the
      account read back is exhausted against the total. */
  function ProjectBillNova(n: NovaState, s: Tables, conf: Config, items: seq<string>, projectId: string,
                           samples: seq<Sample>, now: int, loadTime: int): NovaState
  {
    var a := AccountOf(ProjectBill(s, conf, items, projectId, samples, now, loadTime), projectId);
    if a.Ok? && Exhausted(a.value, BillTotal(s, conf, items, projectId, samples), now) then Enforce(n, projectId)
    else n
  }

  /** The samples the metering store returns for a project (none for an
      unknown one). */
  function SamplesOf(samples: map<string, seq<Sample>>, projectId: string): seq<Sample> {
    if projectId in samples then samples[projectId] else []
  }

  /** The tables after `_check_all_project_bill` over `projects`: each
      project billed on the tables the earlier ones left. */
  function AllTables(s: Tables, conf: Config, items: seq<string>, projects: seq<string>,
                     samples: map<string, seq<Sample>>, now: int, loadTime: int): Tables
    decreases |projects|
  {
    if projects == [] then s
    else
      var p := projects[|projects| - 1];
      ProjectBill(AllTables(s, conf, items, projects[..|projects| - 1], samples, now, loadTime),
                  conf, items, p, SamplesOf(samples, p), now, loadTime)
  }

  /** Nova after `_check_all_project_bill` over `projects`. */
  function AllNova(n: NovaState, s: Tables, conf: Config, items: seq<string>, projects: seq<string>,
                   samples: map<string, seq<Sample>>, now: int, loadTime: int): NovaState
    decreases |projects|
  {
    if projects == [] then n
    else
      var ps, p := projects[..|projects| - 1], projects[|projects| - 1];
      ProjectBillNova(AllNova(n, s, conf, items, ps, samples, now, loadTime),
                      AllTables(s, conf, items, ps, samples, now, loadTime),
                      conf, items, p, SamplesOf(samples, p), now, loadTime)
  }

  // ---------------------------------------------------------------- properties of the accumulation

  /** A sample without a creation time adds nothing to any item. */
  lemma SampleWithoutCreationSkipped(s: Tables, conf: Config, projectId: string, item: string,
                                     samples: seq<Sample>, r: Sample)
    requires r.createdAt.None?
    ensures ItemUsed(s, conf, projectId, item, samples + [r]) == ItemUsed(s, conf, projectId, item, samples)
  {
    assert (samples + [r])[..|samples|] == samples;
  }

  /** Only cpu and memory accumulate usage. */
  lemma {:induction false} OnlyCpuAndMemoryUsed(s: Tables, conf: Config, projectId: string, item: string,
                                                samples: seq<Sample>)
    requires item != "cpu" && item != "memory"
    ensures ItemUsed(s, conf, projectId, item, samples) == 0.0
    decreases |samples|
  {
    if samples != [] {
      OnlyCpuAndMemoryUsed(s, conf, projectId, item, samples[..|samples| - 1]);
    }
  }

  /** The usage of a run of samples is the usage of its parts: the sample
      order does not matter to the accumulated total. */
  lemma {:induction false} ItemUsedAppend(s: Tables, conf: Config, projectId: string, item: string,
                                          a: seq<Sample>, b: seq<Sample>)
    ensures ItemUsed(s, conf, projectId, item, a + b) ==
            ItemUsed(s, conf, projectId, item, a) + ItemUsed(s, conf, projectId, item, b)
    decreases |b|
  {
    if b != [] {
      var b' := b[..|b| - 1];
      assert (a + b)[..|a + b| - 1] == a + b';
      assert (a + b)[|a + b| - 1] == b[|b| - 1];
      ItemUsedAppend(s, conf, projectId, item, a, b');
    } else {
      assert a + b == a;
    }
  }

  /** With non-negative metadata and a non-negative resolved price, the usage
      is non-negative. */
  lemma {:induction false} ItemUsedNonNegative(s: Tables, conf: Config, projectId: string, item: string,
                                               samples: seq<Sample>)
    requires 0 <= ProjectItemPrice(s, conf, item, projectId).0
    requires forall i :: 0 <= i < |samples| ==> 0 <= samples[i].vcpus && 0 <= samples[i].memoryMb
    ensures 0.0 <= ItemUsed(s, conf, projectId, item, samples)
    decreases |samples|
  {
    if samples != [] {
      var last := samples[|samples| - 1];
      assert 0 <= MeteredValue(item, last);
      ItemUsedNonNegative(s, conf, projectId, item, samples[..|samples| - 1]);
    }
  }

  /** The lifetime total over a run of items is the total of its parts. */
  lemma {:induction false} LifetimeTotalAppend(s: Tables, a: seq<string>, b: seq<string>, projectId: string,
                                               values: map<string, real>)
    requires forall x :: x in a + b ==> x in values
    ensures forall i :: 0 <= i < |a| ==> a[i] in values
    ensures forall i :: 0 <= i < |b| ==> b[i] in values
    ensures forall i :: 0 <= i < |a + b| ==> (a + b)[i] in values
    ensures LifetimeTotal(s, a + b, projectId, values) ==
            LifetimeTotal(s, a, projectId, values) + LifetimeTotal(s, b, projectId, values)
    decreases |b|
  {
    assert forall i :: 0 <= i < |a| ==> a[i] in a + b;
    assert forall i :: 0 <= i < |b| ==> b[i] in a + b;
    assert forall i :: 0 <= i < |a + b| ==> (a + b)[i] in a + b;
    if b != [] {
      var b' := b[..|b| - 1];
      assert (a + b)[..|a + b| - 1] == a + b';
      assert (a + b)[|a + b| - 1] == b[|b| - 1];
      assert forall x :: x in a + b' ==> x in a + b;
      LifetimeTotalAppend(s, a, b', projectId, values);
    } else {
      assert a + b == a;
    }
  }

  /** An item with no retired records contributes exactly its usage of the
      pass. */
  lemma LifetimeTotalNoRetired(s: Tables, items: seq<string>, item: string, projectId: string,
                               values: map<string, real>)
    requires (forall i :: 0 <= i < |items| ==> items[i] in values) && item in values
    requires RecordsByItemName(s.items, s.itemRecords, projectId, item, true) == []
    ensures forall i :: 0 <= i < |items + [item]| ==> (items + [item])[i] in values
    ensures LifetimeTotal(s, items + [item], projectId, values) == LifetimeTotal(s, items, projectId, values) + values[item]
  {
    assert (items + [item])[..|items|] == items;
  }

  /** Each supported item's entry in the dict the sample loop leaves is
      that item's usage summed over the samples. */
  lemma {:induction false} PassValuesSums(s: Tables, conf: Config, items: seq<string>, projectId: string,
                                          samples: seq<Sample>, item: string)
    ensures item in items ==>
      PassValues(s, conf, items, projectId, samples)[item] == ItemUsed(s, conf, projectId, item, samples)
    decreases |samples|
  {
    if samples != [] && item in items {
      var pre, r := samples[..|samples| - 1], samples[|samples| - 1];
      PassValuesSums(s, conf, items, projectId, pre, item);
      var v := PassValues(s, conf, items, projectId, pre);
      if r.createdAt.Some? {
        AddUsageEntry(v, item, SampleUsage(s, conf, projectId, "cpu", r), SampleUsage(s, conf, projectId, "memory", r),
                      SampleUsage(s, conf, projectId, item, r));
      }
    }
  }

  /** The entry of one item after the cpu and the memory additions. */
  lemma AddUsageEntry(v: map<string, real>, item: string, c: real, m: real, u: real)
    requires item in v && u == (if item == "cpu" then c else if item == "memory" then m else 0.0)
    ensures AddUsage(AddUsage(v, "cpu", c), "memory", m)[item] == v[item] + u
  {
  }

  /** The total dict `{"used": int(total_used)}` is well typed and has no
      primary key. */
  lemma TotalValuesShape(total: int)
    ensures var v := map[Used := IntVal(total)];
      Typed(v) && Id !in v && Used in v && ProjectId !in v && Deleted !in v
  {
  }

  // ---------------------------------------------------------------- properties of one project's bill

  /** The catalog pass enters every listed name and touches neither ledger. */
  lemma {:induction false} CatalogPassFrame(s: Tables, items: seq<string>, loadTime: int)
    ensures var r := CatalogPass(s, items, loadTime);
      r.projectRecords == s.projectRecords && r.itemRecords == s.itemRecords && s.items <= r.items
    decreases |items|
  {
    if items != [] {
      CatalogPassFrame(s, items[..|items| - 1], loadTime);
    }
  }

  /** The item records and the catalog after the bill are those the item
      ledger write left: the account write comes after it and touches
      neither. */
  lemma ProjectBillItems(s: Tables, conf: Config, items: seq<string>, projectId: string, samples: seq<Sample>,
                         now: int, loadTime: int)
    ensures var values := PassValues(s, conf, items, projectId, samples);
      var t := ItemPass(CatalogPass(s, items, loadTime), conf, projectId, items, values, now, loadTime);
      var r := ProjectBill(s, conf, items, projectId, samples, now, loadTime);
      r.itemRecords == t.itemRecords && r.items == t.items
  {
    var values := PassValues(s, conf, items, projectId, samples);
    var t := ItemPass(CatalogPass(s, items, loadTime), conf, projectId, items, values, now, loadTime);
    AccountWriteActive(t, projectId, map[Used := IntVal(BillTotal(s, conf, items, projectId, samples))], now, loadTime);
  }

  /** After the bill the project has an active account, and every other
      project keeps the account it had. */
  lemma ProjectBillAccounts(s: Tables, conf: Config, items: seq<string>, projectId: string, samples: seq<Sample>,
                            now: int, loadTime: int, other: string)
    ensures AccountOf(ProjectBill(s, conf, items, projectId, samples, now, loadTime), projectId).Ok?
    ensures other != projectId ==>
      AccountOf(ProjectBill(s, conf, items, projectId, samples, now, loadTime), other) == AccountOf(s, other)
  {
    var values := PassValues(s, conf, items, projectId, samples);
    var c := CatalogPass(s, items, loadTime);
    var t := ItemPass(c, conf, projectId, items, values, now, loadTime);
    var v := map[Used := IntVal(BillTotal(s, conf, items, projectId, samples))];
    CatalogPassFrame(s, items, loadTime);
    ItemPassFrameOthers(c, conf, projectId, items, values, now, loadTime);
    AccountWriteActive(t, projectId, v, now, loadTime);
    if other != projectId {
      AccountWriteOthers(t, projectId, v, now, loadTime, other);
      assert AccountOf(t, other) == AccountOf(s, other);
    }
  }

  /** The bill keeps at most one active account per project: the catalog
      pass and the item write leave the account ledger alone, and the total
      dict supplies only `used`. */
  lemma ProjectBillOneActive(s: Tables, conf: Config, items: seq<string>, projectId: string, samples: seq<Sample>,
                             now: int, loadTime: int)
    requires OneActivePerProject(s.projectRecords)
    ensures OneActivePerProject(ProjectBill(s, conf, items, projectId, samples, now, loadTime).projectRecords)
  {
    var values := PassValues(s, conf, items, projectId, samples);
    var c := CatalogPass(s, items, loadTime);
    var t := ItemPass(c, conf, projectId, items, values, now, loadTime);
    CatalogPassFrame(s, items, loadTime);
    ItemPassFrameOthers(c, conf, projectId, items, values, now, loadTime);
    AccountWriteOneActive(t, projectId, map[Used := IntVal(BillTotal(s, conf, items, projectId, samples))], now, loadTime);
  }

  /** A project is in the pass exactly when it is in the part before the
      last project or is the last one. */
  lemma InPrefix(projects: seq<string>, p: string)
    requires projects != []
    ensures p in projects <==> p in projects[..|projects| - 1] || p == projects[|projects| - 1]
  {
    assert projects == projects[..|projects| - 1] + [projects[|projects| - 1]];
  }

  /** After the pass over all projects every listed project has an active
      account. */
  lemma {:induction false} AllTablesListed(s: Tables, conf: Config, items: seq<string>, projects: seq<string>,
                                           samples: map<string, seq<Sample>>, now: int, loadTime: int, p: string)
    requires p in projects
    ensures AccountOf(AllTables(s, conf, items, projects, samples, now, loadTime), p).Ok?
    decreases |projects|
  {
    var ps, q := projects[..|projects| - 1], projects[|projects| - 1];
    var t := AllTables(s, conf, items, ps, samples, now, loadTime);
    ProjectBillAccounts(t, conf, items, q, SamplesOf(samples, q), now, loadTime, p);
    if p != q {
      InPrefix(projects, p);
      AllTablesListed(s, conf, items, ps, samples, now, loadTime, p);
    }
  }

  /** After the pass over all projects every unlisted project keeps the
      account it had. */
  lemma {:induction false} AllTablesUnlisted(s: Tables, conf: Config, items: seq<string>, projects: seq<string>,
                                             samples: map<string, seq<Sample>>, now: int, loadTime: int, p: string)
    requires p !in projects
    ensures AccountOf(AllTables(s, conf, items, projects, samples, now, loadTime), p) == AccountOf(s, p)
    decreases |projects|
  {
    if projects != [] {
      var ps, q := projects[..|projects| - 1], projects[|projects| - 1];
      var t := AllTables(s, conf, items, ps, samples, now, loadTime);
      InPrefix(projects, p);
      AllTablesUnlisted(s, conf, items, ps, samples, now, loadTime, p);
      ProjectBillAccounts(t, conf, items, q, SamplesOf(samples, q), now, loadTime, p);
    }
  }

  /** The pass over all projects keeps at most one active account per
      project. */
  lemma {:induction false} AllTablesOneActive(s: Tables, conf: Config, items: seq<string>, projects: seq<string>,
                                              samples: map<string, seq<Sample>>, now: int, loadTime: int)
    requires OneActivePerProject(s.projectRecords)
    ensures OneActivePerProject(AllTables(s, conf, items, projects, samples, now, loadTime).projectRecords)
    decreases |projects|
  {
    if projects != [] {
      var ps, q := projects[..|projects| - 1], projects[|projects| - 1];
      AllTablesOneActive(s, conf, items, ps, samples, now, loadTime);
      ProjectBillOneActive(AllTables(s, conf, items, ps, samples, now, loadTime),
                           conf, items, q, SamplesOf(samples, q), now, loadTime);
    }
  }

  /** Starting from an account ledger with at most one active account per
      project, every listed project ends the pass with exactly one. */
  lemma AllTablesOneAccount(s: Tables, conf: Config, items: seq<string>, projects: seq<string>,
                            samples: map<string, seq<Sample>>, now: int, loadTime: int, p: string)
    requires OneActivePerProject(s.projectRecords) && p in projects
    ensures var t := AllTables(s, conf, items, projects, samples, now, loadTime).projectRecords;
      && First(t, ByProjectState(p, false)).Some?
      && forall j :: 0 <= j < |t| && Matches(t[j], ByProjectState(p, false)) ==>
           j == First(t, ByProjectState(p, false)).value
  {
    var r := AllTables(s, conf, items, projects, samples, now, loadTime);
    AllTablesListed(s, conf, items, projects, samples, now, loadTime, p);
    AllTablesOneActive(s, conf, items, projects, samples, now, loadTime);
    OnlyActiveAccount(r.projectRecords, p);
  }

  /** One more project in the pass bills it on the state the earlier ones
      left. */
  lemma AllBillsStep(s: Tables, n: NovaState, conf: Config, items: seq<string>, projects: seq<string>,
                     samples: map<string, seq<Sample>>, now: int, loadTime: int, i: nat)
    requires i < |projects|
    ensures var t := AllTables(s, conf, items, projects[..i], samples, now, loadTime);
      && AllTables(s, conf, items, projects[..i + 1], samples, now, loadTime) ==
         ProjectBill(t, conf, items, projects[i], SamplesOf(samples, projects[i]), now, loadTime)
      && AllNova(n, s, conf, items, projects[..i + 1], samples, now, loadTime) ==
         ProjectBillNova(AllNova(n, s, conf, items, projects[..i], samples, now, loadTime), t,
                         conf, items, projects[i], SamplesOf(samples, projects[i]), now, loadTime)
  {
    assert projects[..i + 1][..i] == projects[..i];
  }

  // ---------------------------------------------------------------- the manager

  /** `BillingManager`: the ledger, Nova, the configuration and the price
      counter it shares the ledger with. */
  class BillingManager {
    const db: Database
    const nova: Nova
    const conf: Config
    const priceCounter: PriceCounter
    /** `CONF.supported_items`. */
    const items: seq<string>

    constructor (db: Database, nova: Nova, conf: Config)
      ensures this.db == db && this.nova == nova && this.conf == conf && items == conf.supportedItems
      ensures priceCounter.db == db && priceCounter.conf == conf
    {
      this.db, this.nova, this.conf := db, nova, conf;
      items := conf.supportedItems;
      priceCounter := new PriceCounter(db, conf);
    }

    ghost predicate Valid()
      reads this, db
    {
      db.Valid() && priceCounter.db == db && priceCounter.conf == conf
    }

    /** `_check_all_project_bill`: `_check_project_bill` for each project in
        turn. */
    method CheckAllProjectBill(projects: seq<string>, samples: map<string, seq<Sample>>, now: int)
      requires Valid()
      modifies db, nova, priceCounter.priceList
      ensures Valid()
      ensures db.State() == AllTables(old(db.State()), conf, items, projects, samples, now, db.loadTime)
      ensures nova.State() ==
              AllNova(old(nova.State()), old(db.State()), conf, items, projects, samples, now, db.loadTime)
    {
      ghost var s0, n0 := db.State(), nova.State();
      var i := 0;
      while i < |projects|
        invariant 0 <= i <= |projects|
        invariant Valid()
        invariant db.State() == AllTables(s0, conf, items, projects[..i], samples, now, db.loadTime)
        invariant nova.State() == AllNova(n0, s0, conf, items, projects[..i], samples, now, db.loadTime)
      {
        var project := projects[i];
        ghost var t, m := db.State(), nova.State();
        AllBillsStep(s0, n0, conf, items, projects, samples, now, db.loadTime, i);
        CheckProjectBill(project, SamplesOf(samples, project), now);
        assert db.State() == ProjectBill(t, conf, items, project, SamplesOf(samples, project), now, db.loadTime);
        assert nova.State() == ProjectBillNova(m, t, conf, items, project, SamplesOf(samples, project), now, db.loadTime);
        i := i + 1;
      }
      assert projects[..i] == projects;
    }

    /** `_check_project_bill`. */
    method CheckProjectBill(projectId: string, samples: seq<Sample>, now: int)
      requires Valid()
      modifies db, nova, priceCounter.priceList
      ensures Valid()
      ensures db.State() == ProjectBill(old(db.State()), conf, items, projectId, samples, now, db.loadTime)
      ensures nova.State() ==
              ProjectBillNova(old(nova.State()), old(db.State()), conf, items, projectId, samples, now, db.loadTime)
    {
      ghost var s0 := db.State();
      var values := AccumulateUsage(projectId, samples);
      var total := LifetimeUsed(projectId, values);
      assert Int(total) == BillTotal(s0, conf, items, projectId, samples);
      WriteBill(projectId, values, Int(total), now);
    }

    /** The writes of `_check_project_bill`: the item ledger, then the
        account ledger with `{"used": int(total_used)}`. */
    method WriteBill(projectId: string, values: map<string, real>, total: int, now: int)
      requires Valid()
      modifies db, nova
      ensures Valid()
      ensures db.State() == AccountWrite(ItemPass(old(db.State()), conf, projectId, items, values, now, db.loadTime),
                                         projectId, map[Used := IntVal(total)], now, db.loadTime)
      ensures var a := AccountOf(db.State(), projectId);
              nova.State() == if a.Ok? && Exhausted(a.value, total, now) then Enforce(old(nova.State()), projectId)
                              else old(nova.State())
    {
      ghost var s0, n0 := db.State(), nova.State();
      var itemsWriter := new Items(db, conf, projectId, items, values);
      itemsWriter.ProjectItemRecordUpdate(now);
      ghost var t := db.State();
      assert t == ItemPass(s0, conf, projectId, items, values, now, db.loadTime);
      assert nova.State() == n0;
      TotalValuesShape(total);
      var totalValues := map[Used := IntVal(total)];
      assert IntField(totalValues, Used) == total;
      var account := new TotalProjectRecord(db, nova, projectId, totalValues);
      var record := account.ProjectAccountUpdate(now);
      assert db.State() == AccountWrite(t, projectId, totalValues, now, db.loadTime);
      assert record == AccountOf(db.State(), projectId);
      assert nova.State() == if record.Ok? && Exhausted(record.value, total, now) then Enforce(n0, projectId) else n0;
    }

    /** The sample loop of `_check_project_bill`: every supported item starts
        at 0, and each sample adds its usage. */
    method AccumulateUsage(projectId: string, samples: seq<Sample>) returns (values: map<string, real>)
      requires Valid()
      modifies priceCounter.priceList
      ensures Valid() && db.State() == old(db.State())
      ensures values == PassValues(db.State(), conf, items, projectId, samples)
    {
      ghost var s := db.State();
      values := ZeroValues();
      var j := 0;
      while j < |samples|
        invariant 0 <= j <= |samples|
        invariant Valid() && db.State() == s
        invariant values == PassValues(s, conf, items, projectId, samples[..j])
      {
        assert samples[..j + 1][..j] == samples[..j];
        ghost var v := values;
        values := AddSample(projectId, values, samples[j]);
        assert values == SampleStep(s, conf, projectId, v, samples[j]);
        j := j + 1;
      }
      assert samples[..j] == samples;
    }

    /** `values[item] = {"used": 0}` for every supported item. */
    method ZeroValues() returns (values: map<string, real>)
      ensures values == InitialValues(items)
    {
      values := map[];
      var i := 0;
      while i < |items|
        invariant 0 <= i <= |items|
        invariant values == map item | item in items[..i] :: 0.0
      {
        assert forall x :: x in items[..i + 1] <==> x in items[..i] || x == items[i];
        values := values[items[i] := 0.0];
        i := i + 1;
      }
      assert items[..i] == items;
    }

    /** One iteration of the sample loop: with a creation time, the cpu and
        the memory usage of the sample are added. */
    method AddSample(projectId: string, values: map<string, real>, r: Sample) returns (next: map<string, real>)
      requires Valid()
      modifies priceCounter.priceList
      ensures Valid() && db.State() == old(db.State())
      ensures next == SampleStep(db.State(), conf, projectId, values, r)
    {
      ghost var s := db.State();
      next := values;
      if r.createdAt.Some? {
        if "cpu" in next {
          var using := priceCounter.ItemUsage("cpu", projectId, r.createdAt.value, r.timestamp, r.vcpus);
          assert using == SampleUsage(s, conf, projectId, "cpu", r);
          next := AddUsage(next, "cpu", using);
        }
        assert next == AddUsage(values, "cpu", SampleUsage(s, conf, projectId, "cpu", r));
        ghost var afterCpu := next;
        if "memory" in next {
          var using := priceCounter.ItemUsage("memory", projectId, r.createdAt.value, r.timestamp, r.memoryMb);
          assert using == SampleUsage(s, conf, projectId, "memory", r);
          next := AddUsage(next, "memory", using);
        }
        assert next == AddUsage(afterCpu, "memory", SampleUsage(s, conf, projectId, "memory", r));
      }
    }

    /** The total loop of `_check_project_bill`: for each supported item, its
        usage plus the `used` of its retired records. */
    method LifetimeUsed(projectId: string, values: map<string, real>) returns (total: real)
      requires Valid() && forall i :: 0 <= i < |items| ==> items[i] in values
      modifies db
      ensures Valid()
      ensures db.State() == CatalogPass(old(db.State()), items, db.loadTime)
      ensures total == LifetimeTotal(old(db.State()), items, projectId, values)
    {
      ghost var s0 := db.State();
      total := 0.0;
      var k := 0;
      while k < |items|
        invariant 0 <= k <= |items|
        invariant Valid()
        invariant db.State() == CatalogPass(s0, items[..k], db.loadTime)
        invariant forall n :: RecordsByItemName(db.items, db.itemRecords, projectId, n, true) ==
                              RecordsByItemName(s0.items, s0.itemRecords, projectId, n, true)
        invariant total == LifetimeTotal(s0, items[..k], projectId, values)
      {
        assert items[..k + 1][..k] == items[..k];
        var item := items[k];
        var used := RetiredUsed(projectId, item);
        total := total + values[item] + used as real;
        k := k + 1;
      }
      assert items[..k] == items;
    }

    /** One iteration of the total loop: the retired records of the item,
        looked up by name (which enters a missing name in the catalog), and
        the sum of their `used`; 0 on ProjectItemRecordNotFound. */
    method RetiredUsed(projectId: string, item: string) returns (used: int)
      requires Valid()
      modifies db
      ensures Valid()
      ensures db.State() == WithItem(old(db.State()), item, db.loadTime)
      ensures forall n :: RecordsByItemName(db.items, db.itemRecords, projectId, n, true) ==
                          RecordsByItemName(old(db.items), old(db.itemRecords), projectId, n, true)
      ensures used == DeletedUsed(RecordsByItemName(old(db.items), old(db.itemRecords), projectId, item, true))
    {
      used := 0;
      var deleted := db.GetProjectItemRecordByName(projectId, item, true);
      if deleted.Ok? {
        used := SumUsed(deleted.value);
      }
    }

    /** `for d in deleted: used = used + d.used`. */
    method SumUsed(rows: seq<Row>) returns (used: int)
      ensures used == DeletedUsed(rows)
    {
      used := 0;
      var m := 0;
      while m < |rows|
        invariant 0 <= m <= |rows|
        invariant used == DeletedUsed(rows[..m])
      {
        assert rows[..m + 1][..m] == rows[..m];
        used := used + IntField(rows[m], Used);
        m := m + 1;
      }
      assert rows[..m] == rows;
    }
  }
}
