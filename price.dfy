/** The price controller (billing/agent/price.py): the charge formulas, the
    price-epoch clipping of a usage window, price resolution, the write of
    per-item usage into the item ledger, and the write of the project total
    into the account ledger followed by the exhaustion check and its
    enforcer. */
module Price {
  import opened Models
  import opened Ledger
  import opened Quotas

  // ---------------------------------------------------------------- configuration

  /** The agent's options: `supported_items` and the `<item>_price` values. */
  datatype Config = Config(supportedItems: seq<string>, prices: map<string, int>)

  /** The registered defaults: cpu and memory, each at 1 vdollar a minute. */
  const DefaultConfig: Config := Config(["cpu", "memory"], map["cpu" := 1, "memory" := 1])

  /** `CONF.get('<item>_price', 0)`. */
  function ConfPrice(conf: Config, item: string): int {
    if item in conf.prices then conf.prices[item] else 0
  }

  const Minute: int := 60
  /** Memory is billed per block of 512 MB. */
  const MemoryUnit: int := 512
  /** The default lifetime of a new record: one day. */
  const Day: int := 86400

  /** Python's `int()` on a float: truncation toward zero. */
  function Int(x: real): (r: int)
    ensures 0.0 <= x ==> r as real <= x < r as real + 1.0
    ensures x < 0.0 ==> r as real - 1.0 < x <= r as real
  {
    if x >= 0.0 then x.Floor else -((-x).Floor)
  }

  // ---------------------------------------------------------------- the charge formulas

  /** The 60-second minimum of `cpu_price` and `memory_price`. */
  function BilledSeconds(seconds: int): int {
    if seconds < Minute then Minute else seconds
  }

  /** `cpu_price`: value * seconds * price over 60, in Python 2 integer
      (floor) division. */
  function CpuCharge(value: int, seconds: int, price: int): (r: int)
    ensures Minute * r <= value * BilledSeconds(seconds) * price < Minute * r + Minute
  {
    (value * BilledSeconds(seconds) * price) / Minute
  }

  /** `math.floor(value/512)`: the whole 512 MB blocks. */
  function MemoryBlocks(value: int): (r: int)
    ensures MemoryUnit * r <= value < MemoryUnit * r + MemoryUnit
  {
    value / MemoryUnit
  }

  /** `memory_price`: a float (math.floor returns one) divided by 60, so the
      division is exact. */
  function MemoryCharge(value: int, seconds: int, price: int): (r: real)
    ensures r * 60.0 == (MemoryBlocks(value) * BilledSeconds(seconds) * price) as real
  {
    (MemoryBlocks(value) * BilledSeconds(seconds) * price) as real / 60.0
  }

  /** `get_price`: the charge for `seconds` of `value` units of an item. */
  function Charge(item: string, value: int, seconds: int, price: int): (r: real)
    ensures item != "cpu" && item != "memory" ==> r == 0.0
  {
    if item == "cpu" then CpuCharge(value, seconds, price) as real
    else if item == "memory" then MemoryCharge(value, seconds, price)
    else 0.0
  }

  /** Any window shorter than a minute costs what a full minute costs. */
  lemma ChargeMinimumMinute(item: string, value: int, seconds: int, price: int)
    requires seconds < Minute
    ensures Charge(item, value, seconds, price) == Charge(item, value, Minute, price)
  {
    assert BilledSeconds(seconds) == BilledSeconds(Minute);
  }

  /** No vCPUs or no price: no cpu charge. */
  lemma CpuChargeZero(value: int, seconds: int, price: int)
    requires value == 0 || price == 0
    ensures CpuCharge(value, seconds, price) == 0
  {
    assert value * BilledSeconds(seconds) * price == 0;
  }

  lemma MulRightMono(a: int, b: int, c: int)
    requires a <= b && 0 <= c
    ensures a * c <= b * c
  {
    assert b * c - a * c == (b - a) * c;
  }

  lemma MulBothMono(a: int, b: int, c: int, d: int)
    requires 0 <= a <= b && 0 <= c <= d
    ensures 0 <= a * c <= b * d
  {
    MulRightMono(a, b, c);
    MulRightMono(c, d, b);
    assert c * b == b * c && d * b == b * d;
  }

  /** The cpu charge never decreases when the vCPU count, the duration or the
      price grows (for non-negative counts and prices). */
  lemma CpuChargeMonotone(v1: int, v2: int, s1: int, s2: int, p1: int, p2: int)
    requires 0 <= v1 <= v2 && s1 <= s2 && 0 <= p1 <= p2
    ensures CpuCharge(v1, s1, p1) <= CpuCharge(v2, s2, p2)
  {
    var b1, b2 := BilledSeconds(s1), BilledSeconds(s2);
    MulBothMono(v1, v2, b1, b2);
    MulBothMono(v1 * b1, v2 * b2, p1, p2);
    var x, y := v1 * b1 * p1, v2 * b2 * p2;
    assert x / Minute <= y / Minute;
  }

  /** Less than one 512 MB block of memory is free. */
  lemma MemoryChargeZeroBelowUnit(value: int, seconds: int, price: int)
    requires 0 <= value < MemoryUnit
    ensures MemoryCharge(value, seconds, price) == 0.0
  {
    assert MemoryBlocks(value) == 0;
  }

  /** The memory charge never decreases when the memory size grows. */
  lemma MemoryChargeMonotone(v1: int, v2: int, seconds: int, price: int)
    requires v1 <= v2 && 0 <= price
    ensures MemoryCharge(v1, seconds, price) <= MemoryCharge(v2, seconds, price)
  {
    var b1, b2, s := MemoryBlocks(v1), MemoryBlocks(v2), BilledSeconds(seconds);
    assert b1 <= b2;
    MulRightMono(b1, b2, s);
    MulRightMono(b1 * s, b2 * s, price);
  }

  /** Non-negative amounts at non-negative prices cost a non-negative sum. */
  lemma ChargeNonNegative(item: string, value: int, seconds: int, price: int)
    ensures 0 <= value && 0 <= price ==> 0.0 <= Charge(item, value, seconds, price)
  {
    if 0 <= value && 0 <= price {
      MulBothMono(0, value, 0, BilledSeconds(seconds));
      MulBothMono(0, value * BilledSeconds(seconds), 0, price);
      MulBothMono(0, MemoryBlocks(value), 0, BilledSeconds(seconds));
      MulBothMono(0, MemoryBlocks(value) * BilledSeconds(seconds), 0, price);
    }
  }

  /** `PriceList`: a calculator whose inputs are kept in fields between the
      call of `get_price` and the cpu or memory formula. */
  class PriceList {
    var value: Option<int>
    var seconds: Option<int>
    var price: Option<int>

    constructor ()
      ensures value == None && seconds == None && price == None
    {
      value, seconds, price := None, None, None;
    }

    /** `get_price`.  The cpu and memory formulas multiply by the stored
        price itself (the configured fallback they compute is never used), so
        a price must be given for those two items. */
    method GetPrice(item: string, value: int, seconds: int, price: Option<int>) returns (charge: real)
      requires (item == "cpu" || item == "memory") ==> price.Some?
      modifies this
      ensures charge == Charge(item, value, seconds, price.GetOr(0))
      ensures this.value == Some(value) && this.price == price
      ensures this.seconds == Some(if item == "cpu" || item == "memory" then BilledSeconds(seconds) else seconds)
    {
      this.value, this.seconds, this.price := Some(value), Some(seconds), price;
      if item == "cpu" {
        var c := CpuPrice();
        return c as real;
      }
      if item == "memory" {
        charge := MemoryPrice();
        return;
      }
      return 0.0;
    }

    /** `cpu_price`: raises a short duration to one minute, then applies the
        cpu formula. */
    method CpuPrice() returns (charge: int)
      requires value.Some? && seconds.Some? && price.Some?
      modifies this
      ensures value == old(value) && price == old(price)
      ensures seconds == Some(BilledSeconds(old(seconds).value))
      ensures charge == CpuCharge(value.value, old(seconds).value, price.value)
    {
      if seconds.value < Minute {
        seconds := Some(Minute);
      }
      charge := (value.value * seconds.value * price.value) / Minute;
    }

    /** `memory_price`: raises a short duration to one minute, then applies
        the memory formula. */
    method MemoryPrice() returns (charge: real)
      requires value.Some? && seconds.Some? && price.Some?
      modifies this
      ensures value == old(value) && price == old(price)
      ensures seconds == Some(BilledSeconds(old(seconds).value))
      ensures charge == MemoryCharge(value.value, old(seconds).value, price.value)
    {
      if seconds.value < Minute {
        seconds := Some(Minute);
      }
      charge := ((value.value / MemoryUnit) * seconds.value * price.value) as real / 60.0;
    }
  }

  // ---------------------------------------------------------------- price epochs

  /** The seconds `item_usage` bills for a sample from `start` to `end` when
      the current price was locked at `lock`: none when the sample ended
      before the lock, the part after the lock when the lock falls strictly
      inside the sample, otherwise the whole sample. */
  function ChargedSeconds(start: int, end: int, lock: Option<int>): (r: Option<int>)
    ensures r.None? <==> lock.Some? && end < lock.value
    ensures lock.None? ==> r == Some(end - start)
    ensures lock.Some? && start < lock.value < end ==> r == Some(end - lock.value)
    ensures lock.Some? && lock.value <= start && lock.value <= end ==> r == Some(end - start)
    ensures lock.Some? && start < lock.value == end ==> r == Some(end - start)
    ensures r.Some? && start <= end ==> 0 <= r.value <= end - start
  {
    if lock.Some? && end < lock.value then None
    else if lock.Some? && start < lock.value && end > lock.value then Some(end - lock.value)
    else Some(end - start)
  }

  /** `get_project_item_price` of `PriceCounter`, over the tables `s`: with an
      active record of the project for the named item, that record's price
      (the configured one when it is 0 or unset) and its creation time as the
      lock; otherwise the configured price and no lock. */
  function ProjectItemPrice(s: Tables, conf: Config, itemName: string, projectId: string): (r: (int, Option<int>))
    ensures r.1.None? ==> r.0 == ConfPrice(conf, itemName)
    ensures r.1.Some? <==>
      First(s.items, ByName(itemName)).Some? &&
      exists k :: 0 <= k < |s.itemRecords| &&
        Matches(s.itemRecords[k], ByItem(projectId, IntField(s.items[First(s.items, ByName(itemName)).value], Id), false))
    ensures r.1.Some? ==>
      && First(s.items, ByName(itemName)).Some?
      && First(s.itemRecords, ByItem(projectId, CatalogId(s.items, itemName), false)).Some?
      && var k := First(s.itemRecords, ByItem(projectId, CatalogId(s.items, itemName), false)).value;
         && r.1.value == IntField(s.itemRecords[k], CreatedAt)
         && r.0 == (if IntField(s.itemRecords[k], Price) != 0 then IntField(s.itemRecords[k], Price) else ConfPrice(conf, itemName))
  {
    match First(s.items, ByName(itemName))
    case None => (ConfPrice(conf, itemName), None)
    case Some(i) =>
      match First(s.itemRecords, ByItem(projectId, IntField(s.items[i], Id), false))
      case None => (ConfPrice(conf, itemName), None)
      case Some(k) =>
        var p := IntField(s.itemRecords[k], Price);
        (if p != 0 then p else ConfPrice(conf, itemName), Some(IntField(s.itemRecords[k], CreatedAt)))
  }

  /** `item_usage`: the charge for one sample at the resolved price, billed
      only from the price lock on. */
  function Usage(item: string, value: int, start: int, end: int, resolved: (int, Option<int>)): (r: real)
    ensures 0 <= value && 0 <= resolved.0 ==> 0.0 <= r
    ensures resolved.1.Some? && end < resolved.1.value ==> r == 0.0
  {
    match ChargedSeconds(start, end, resolved.1)
    case None => 0.0
    case Some(seconds) =>
      ChargeNonNegative(item, value, seconds, resolved.0);
      Charge(item, value, seconds, resolved.0)
  }

  /** `PriceCounter`: usage of one sample against the ledger. */
  class PriceCounter {
    const db: Database
    const priceList: PriceList
    const conf: Config

    constructor (db: Database, conf: Config)
      ensures this.db == db && this.conf == conf && fresh(priceList)
    {
      this.db := db;
      this.conf := conf;
      priceList := new PriceList();
    }

    /** `item_usage`. */
    method ItemUsage(itemName: string, projectId: string, createdAt: int, updatedAt: int, value: int)
      returns (usage: real)
      modifies priceList
      ensures usage == Usage(itemName, value, createdAt, updatedAt,
                             ProjectItemPrice(db.State(), conf, itemName, projectId))
    {
      var start, end := createdAt, updatedAt;
      var (price, itemCreatedAt) := ProjectItemPrice(db.State(), conf, itemName, projectId);
      if itemCreatedAt.Some? && end < itemCreatedAt.value {
        return 0.0;
      }
      if itemCreatedAt.Some? && start < itemCreatedAt.value && end > itemCreatedAt.value {
        start := itemCreatedAt.value;
      }
      var usedSeconds := end - start;
      assert ChargedSeconds(createdAt, updatedAt, itemCreatedAt) == Some(usedSeconds);
      usage := priceList.GetPrice(itemName, value, usedSeconds, Some(price));
    }
  }

  // ---------------------------------------------------------------- item ledger writes

  /** The catalog id of a name that is in the catalog. */
  function CatalogId(items: seq<Row>, name: string): int
    requires First(items, ByName(name)).Some?
  {
    IntField(items[First(items, ByName(name)).value], Id)
  }

  /** The dict `project_item_record_update` passes for an item: the
      `int()`-truncated usage and the catalog id. */
  function UsedValue(used: real, itemId: int): Row {
    map[Used := IntVal(Int(used)), ItemId := IntVal(itemId)]
  }

  /** The same dict once the failed update has stamped it and the agent has
      added the one-day expiry and the configured price. */
  function DefaultRecordValues(value: Row, price: int, now: int): Row {
    value[UpdatedAt := IntVal(now)][Until := IntVal(now + Day)][Price := IntVal(price)]
  }

  /** An active record after the in-place update: the truncated usage, the
      catalog id and `updated_at` written, every other column as it was. */
  function WrittenRow(row: Row, itemId: int, used: real, now: int): (r: Row)
    ensures GetItem(r, Used) == Some(IntVal(Int(used))) && GetItem(r, UpdatedAt) == Some(IntVal(now))
    ensures GetItem(r, ItemId) == Some(IntVal(itemId))
  {
    row + UsedValue(used, itemId)[UpdatedAt := IntVal(now)]
  }

  /** The record created for an item with no active record: owned by the
      project, for the catalog id, active, with `used = 0`, the configured
      price, the one-day expiry and `created_at` and `updated_at` now. */
  predicate CreatedRecord(row: Row, projectId: string, itemId: int, price: int, now: int) {
    && GetItem(row, Used) == Some(IntVal(0))
    && GetItem(row, ProjectId) == Some(StrVal(projectId))
    && GetItem(row, ItemId) == Some(IntVal(itemId))
    && GetItem(row, Price) == Some(IntVal(price))
    && GetItem(row, Until) == Some(IntVal(now + Day))
    && GetItem(row, CreatedAt) == Some(IntVal(now)) && GetItem(row, UpdatedAt) == Some(IntVal(now))
    && GetItem(row, Deleted) == Some(BoolVal(false))
  }

  /** The row `item_record_create_for_project` stores for the agent's dict:
      whatever usage was computed, it starts at 0. */
  function CreatedRow(id: int, loadTime: int, projectId: string, itemId: int, used: real, price: int, now: int): (r: Row)
    ensures CreatedRecord(r, projectId, itemId, price, now)
  {
    NewRecord(id, loadTime) + ItemRecordCreateValues(projectId, DefaultRecordValues(UsedValue(used, itemId), price, now), now)
  }

  /** The item-record write of one iteration: `item_record_update_for_project`
      in place (the agent's dict has no price, or, for an item listed again
      after its record was created, the created record's own price, so no
      price epoch ends), or,
      on ProjectItemRecordNotFound, `item_record_create_for_project`. */
  function RecordWrite(s: Tables, projectId: string, itemId: int, used: real, price: int, now: int, loadTime: int): (r: Tables)
    ensures r.items == s.items && r.projectRecords == s.projectRecords
    ensures r.nextId >= s.nextId && |r.itemRecords| >= |s.itemRecords|
  {
    match First(s.itemRecords, ByItem(projectId, itemId, false))
    case Some(k) => s.(itemRecords := s.itemRecords[k := WrittenRow(s.itemRecords[k], itemId, used, now)])
    case None =>
      s.(itemRecords := s.itemRecords + [CreatedRow(s.nextId, loadTime, projectId, itemId, used, price, now)],
         nextId := s.nextId + 1)
  }

  /** One iteration of `project_item_record_update` for `item`: the catalog
      entry is made sure of, then, with usage for the item, its record is
      written. */
  function ItemStep(s: Tables, conf: Config, projectId: string, item: string,
                    values: map<string, real>, now: int, loadTime: int): Tables
  {
    var s1 := WithItem(s, item, loadTime);
    if item !in values then s1
    else RecordWrite(s1, projectId, CatalogId(s1.items, item), values[item], ConfPrice(conf, item), now, loadTime)
  }

  /** The step for `item` creates its record: the item has usage and, once
      its catalog entry is made sure of, no active record. */
  predicate StepCreates(s: Tables, projectId: string, item: string, values: map<string, real>, loadTime: int) {
    var s1 := WithItem(s, item, loadTime);
    item in values && First(s1.itemRecords, ByItem(projectId, CatalogId(s1.items, item), false)).None?
  }

  /** The usage dict after one iteration.  The dict the agent hands to the
      database for `item` is the caller's own, so the agent's truncation of
      `used` and the `used = 0` written by `item_record_create_for_project`
      both stay in it and are what a later iteration for the same item
      reads. */
  function StepValues(s: Tables, projectId: string, item: string, values: map<string, real>, loadTime: int)
    : (r: map<string, real>)
    ensures r.Keys == values.Keys
    ensures forall x :: x in values && x != item ==> r[x] == values[x]
  {
    if item !in values then values
    else values[item := if StepCreates(s, projectId, item, values, loadTime) then 0.0 else Int(values[item]) as real]
  }

  /** The tables after `project_item_record_update` over `resources`. */
  function ItemPass(s: Tables, conf: Config, projectId: string, resources: seq<string>,
                    values: map<string, real>, now: int, loadTime: int): Tables
    decreases |resources|
  {
    if resources == [] then s
    else
      var rs := resources[..|resources| - 1];
      ItemStep(ItemPass(s, conf, projectId, rs, values, now, loadTime), conf, projectId, resources[|resources| - 1],
               ItemPassValues(s, conf, projectId, rs, values, now, loadTime), now, loadTime)
  }

  /** The usage dict after `project_item_record_update` over `resources`. */
  function ItemPassValues(s: Tables, conf: Config, projectId: string, resources: seq<string>,
                          values: map<string, real>, now: int, loadTime: int): map<string, real>
    decreases |resources|
  {
    if resources == [] then values
    else
      var rs := resources[..|resources| - 1];
      StepValues(ItemPass(s, conf, projectId, rs, values, now, loadTime), projectId, resources[|resources| - 1],
                 ItemPassValues(s, conf, projectId, rs, values, now, loadTime), loadTime)
  }

  /** The pass changes the dict only at the resources it meets, and never
      its keys. */
  lemma {:induction false} ItemPassValuesFrame(s: Tables, conf: Config, projectId: string, resources: seq<string>,
                                              values: map<string, real>, now: int, loadTime: int, name: string)
    ensures ItemPassValues(s, conf, projectId, resources, values, now, loadTime).Keys == values.Keys
    ensures name in values && name !in resources ==>
              ItemPassValues(s, conf, projectId, resources, values, now, loadTime)[name] == values[name]
    decreases |resources|
  {
    if resources != [] {
      var rs := resources[..|resources| - 1];
      assert forall x :: x in rs ==> x in resources;
      ItemPassValuesFrame(s, conf, projectId, rs, values, now, loadTime, name);
    }
  }

  /** Catalog ids are distinct and every catalog id and every item record's
      catalog id lies below the next key. */
  ghost predicate KeysBelow(s: Tables) {
    && UniqueIds(s.items)
    && (forall i :: 0 <= i < |s.items| ==> IntField(s.items[i], Id) < s.nextId)
    && (forall j :: 0 <= j < |s.itemRecords| ==> IntField(s.itemRecords[j], ItemId) < s.nextId)
  }

  lemma ValidKeysBelow(s: Tables)
    requires TablesValid(s.projectRecords, s.items, s.itemRecords, s.nextId)
    ensures KeysBelow(s)
  {
    forall j | 0 <= j < |s.itemRecords| ensures IntField(s.itemRecords[j], ItemId) < s.nextId {
      assert IsIdIn(s.items, IntField(s.itemRecords[j], ItemId));
    }
  }

  /** Entering a name in the catalog keeps the keys below the next one, and
      gives the name an id below it. */
  lemma WithItemKeysBelow(s: Tables, name: string, loadTime: int)
    requires KeysBelow(s)
    ensures KeysBelow(WithItem(s, name, loadTime))
    ensures WithItem(s, name, loadTime).nextId >= s.nextId
    ensures First(s.items, ByName(name)).None? ==>
              CatalogId(WithItem(s, name, loadTime).items, name) == s.nextId
  {
    if First(s.items, ByName(name)).None? {
      var row := NewRecord(s.nextId, loadTime)[Name := StrVal(name)];
      AppendUnique(s.items, row);
      FirstAppend(s.items, row, ByName(name));
      var t := s.items + [row];
      assert forall i :: 0 <= i < |s.items| ==> t[i] == s.items[i];
    }
  }

  lemma RecordWriteKeysBelow(s: Tables, projectId: string, itemId: int, used: real, price: int, now: int, loadTime: int)
    requires KeysBelow(s) && itemId < s.nextId
    ensures KeysBelow(RecordWrite(s, projectId, itemId, used, price, now, loadTime))
  {
    var r := RecordWrite(s, projectId, itemId, used, price, now, loadTime);
    match First(s.itemRecords, ByItem(projectId, itemId, false))
    case Some(k) =>
      assert forall j :: 0 <= j < |r.itemRecords| && j != k ==> r.itemRecords[j] == s.itemRecords[j];
      assert IntField(r.itemRecords[k], ItemId) == itemId;
    case None =>
      assert forall j :: 0 <= j < |s.itemRecords| ==> r.itemRecords[j] == s.itemRecords[j];
      assert IntField(r.itemRecords[|s.itemRecords|], ItemId) == itemId;
  }

  /** The two outcomes of the write, and the dicts it hands to the
      database: no `price`, no primary key, the catalog id. */
  lemma RecordWriteCases(s: Tables, projectId: string, itemId: int, used: real, price: int, now: int, loadTime: int)
    ensures var value := UsedValue(used, itemId);
      && Typed(value) && Id !in value && ProjectId !in value && Price !in value && ItemId in value
      && IntField(value, ItemId) == itemId
      && var vals := DefaultRecordValues(value, price, now);
         Typed(vals) && Id !in vals && ItemId in vals && IntField(vals, ItemId) == itemId
    ensures var f := ByItem(projectId, itemId, false);
      match First(s.itemRecords, f)
      case None =>
        RecordWrite(s, projectId, itemId, used, price, now, loadTime) ==
        s.(itemRecords := s.itemRecords + [CreatedRow(s.nextId, loadTime, projectId, itemId, used, price, now)],
           nextId := s.nextId + 1)
      case Some(k) =>
        && !PriceChanges(UsedValue(used, itemId), s.itemRecords[k])
        && RecordWrite(s, projectId, itemId, used, price, now, loadTime) ==
           s.(itemRecords := s.itemRecords[k := s.itemRecords[k] + UsedValue(used, itemId)[UpdatedAt := IntVal(now)]])
  {
  }

  /** The write for one catalog id leaves the records of any other catalog
      id, and which of them is active first, alone. */
  lemma RecordWriteFrame(s: Tables, projectId: string, itemId: int, used: real, price: int, now: int, loadTime: int,
                         other: int)
    requires other != itemId
    ensures var r := RecordWrite(s, projectId, itemId, used, price, now, loadTime);
      var f := ByItem(projectId, other, false);
      && First(r.itemRecords, f) == First(s.itemRecords, f)
      && forall j :: 0 <= j < |s.itemRecords| && IntField(s.itemRecords[j], ItemId) == other ==>
                       r.itemRecords[j] == s.itemRecords[j]
  {
    var r := RecordWrite(s, projectId, itemId, used, price, now, loadTime);
    var f := ByItem(projectId, other, false);
    match First(s.itemRecords, ByItem(projectId, itemId, false))
    case Some(k) =>
      var w := WrittenRow(s.itemRecords[k], itemId, used, now);
      assert r.itemRecords == s.itemRecords[k := w];
      assert IntField(s.itemRecords[k], ItemId) == itemId;
      assert !Matches(w, f) by { assert GetItem(w, ItemId) == Some(IntVal(itemId)); }
      FirstRewriteOther(s.itemRecords, k, w, f);
    case None =>
      var row := CreatedRow(s.nextId, loadTime, projectId, itemId, used, price, now);
      assert r.itemRecords == s.itemRecords + [row];
      FirstAppend(s.itemRecords, row, f);
      assert !Matches(row, f) by { assert GetItem(row, ItemId) == Some(IntVal(itemId)); }
      assert forall j :: 0 <= j < |s.itemRecords| ==> r.itemRecords[j] == s.itemRecords[j];
  }

  /** The write for a catalog id leaves its active record written in place
      when there was one, and otherwise appends a created one, which becomes
      the active record. */
  lemma RecordWriteWrites(s: Tables, projectId: string, itemId: int, used: real, price: int, now: int, loadTime: int)
    ensures var r := RecordWrite(s, projectId, itemId, used, price, now, loadTime);
      var f := ByItem(projectId, itemId, false);
      && First(r.itemRecords, f).Some?
      && match First(s.itemRecords, f)
         case Some(k0) =>
           First(r.itemRecords, f) == Some(k0) && r.itemRecords[k0] == WrittenRow(s.itemRecords[k0], itemId, used, now)
         case None =>
           |s.itemRecords| <= First(r.itemRecords, f).value &&
           CreatedRecord(r.itemRecords[First(r.itemRecords, f).value], projectId, itemId, price, now)
  {
    var f := ByItem(projectId, itemId, false);
    match First(s.itemRecords, f)
    case Some(k) =>
      FirstRewriteSame(s.itemRecords, k, WrittenRow(s.itemRecords[k], itemId, used, now), f);
    case None =>
      FirstAppend(s.itemRecords, CreatedRow(s.nextId, loadTime, projectId, itemId, used, price, now), f);
  }

  /** The write touches only records of the project, and what it adds
      belongs to the project and starts at `used = 0`. */
  lemma RecordWriteOthers(s: Tables, projectId: string, itemId: int, used: real, price: int, now: int, loadTime: int)
    ensures var r := RecordWrite(s, projectId, itemId, used, price, now, loadTime);
      && (forall j :: 0 <= j < |s.itemRecords| && StrField(s.itemRecords[j], ProjectId) != projectId ==>
                        r.itemRecords[j] == s.itemRecords[j])
      && (forall j :: 0 <= j < |s.itemRecords| ==> GetItem(r.itemRecords[j], ProjectId) == GetItem(s.itemRecords[j], ProjectId))
      && (forall j :: |s.itemRecords| <= j < |r.itemRecords| ==>
                        GetItem(r.itemRecords[j], ProjectId) == Some(StrVal(projectId)) &&
                        GetItem(r.itemRecords[j], Used) == Some(IntVal(0)))
  {
    var r := RecordWrite(s, projectId, itemId, used, price, now, loadTime);
    match First(s.itemRecords, ByItem(projectId, itemId, false))
    case Some(k) =>
      assert StrField(s.itemRecords[k], ProjectId) == projectId;
      assert forall j :: 0 <= j < |s.itemRecords| && j != k ==> r.itemRecords[j] == s.itemRecords[j];
    case None =>
      assert forall j :: 0 <= j < |s.itemRecords| ==> r.itemRecords[j] == s.itemRecords[j];
      assert |r.itemRecords| == |s.itemRecords| + 1;
  }

  lemma ItemStepKeysBelow(s: Tables, conf: Config, projectId: string, item: string,
                          values: map<string, real>, now: int, loadTime: int)
    requires KeysBelow(s)
    ensures KeysBelow(ItemStep(s, conf, projectId, item, values, now, loadTime))
    ensures ItemStep(s, conf, projectId, item, values, now, loadTime).nextId >= s.nextId
  {
    WithItemKeysBelow(s, item, loadTime);
    var s1 := WithItem(s, item, loadTime);
    if item in values {
      var id := CatalogId(s1.items, item);
      assert id < s1.nextId;
      RecordWriteKeysBelow(s1, projectId, id, values[item], ConfPrice(conf, item), now, loadTime);
    }
  }

  lemma {:induction false} ItemPassKeysBelow(s: Tables, conf: Config, projectId: string, resources: seq<string>,
                                            values: map<string, real>, now: int, loadTime: int)
    requires KeysBelow(s)
    ensures KeysBelow(ItemPass(s, conf, projectId, resources, values, now, loadTime))
    ensures ItemPass(s, conf, projectId, resources, values, now, loadTime).nextId >= s.nextId
    decreases |resources|
  {
    if resources != [] {
      var rs := resources[..|resources| - 1];
      ItemPassKeysBelow(s, conf, projectId, rs, values, now, loadTime);
      ItemStepKeysBelow(ItemPass(s, conf, projectId, rs, values, now, loadTime), conf, projectId,
                        resources[|resources| - 1], ItemPassValues(s, conf, projectId, rs, values, now, loadTime),
                        now, loadTime);
    }
  }

  /** A name not yet in the catalog stays out of it through a step for
      another name. */
  lemma ItemStepAbsent(s: Tables, conf: Config, projectId: string, item: string,
                       values: map<string, real>, now: int, loadTime: int, name: string)
    requires name != item && First(s.items, ByName(name)).None?
    ensures First(ItemStep(s, conf, projectId, item, values, now, loadTime).items, ByName(name)).None?
  {
    if First(s.items, ByName(item)).None? {
      FirstAppend(s.items, NewRecord(s.nextId, loadTime)[Name := StrVal(item)], ByName(name));
    }
  }

  /** A step for `item` leaves another name's catalog entry, its active
      record and every record of that catalog id alone. */
  lemma ItemStepFrame(s: Tables, conf: Config, projectId: string, item: string,
                      values: map<string, real>, now: int, loadTime: int, name: string)
    requires KeysBelow(s) && name != item && First(s.items, ByName(name)).Some?
    ensures var r := ItemStep(s, conf, projectId, item, values, now, loadTime);
      var f := ByItem(projectId, CatalogId(s.items, name), false);
      && First(r.items, ByName(name)) == First(s.items, ByName(name))
      && CatalogId(r.items, name) == CatalogId(s.items, name)
      && First(r.itemRecords, f) == First(s.itemRecords, f)
      && |s.itemRecords| <= |r.itemRecords|
      && forall j :: 0 <= j < |s.itemRecords| && IntField(s.itemRecords[j], ItemId) == CatalogId(s.items, name) ==>
                       r.itemRecords[j] == s.itemRecords[j]
  {
    WithItemKeepsNames(s, item, loadTime, name);
    WithItemKeysBelow(s, item, loadTime);
    var s1 := WithItem(s, item, loadTime);
    if item in values {
      var id := CatalogId(s1.items, item);
      var ki, kn := First(s1.items, ByName(item)).value, First(s1.items, ByName(name)).value;
      assert ki != kn by {
        assert s1.items[ki][Name] == StrVal(item) && s1.items[kn][Name] == StrVal(name);
      }
      RecordWriteFrame(s1, projectId, id, values[item], ConfPrice(conf, item), now, loadTime, CatalogId(s.items, name));
    }
  }

  /** A pass over items that do not include `name` leaves its catalog
      entry, its active record and every record of its catalog id alone, and
      keeps it out of the catalog when it was not there. */
  lemma {:induction false} ItemPassFrame(s: Tables, conf: Config, projectId: string, resources: seq<string>,
                                        values: map<string, real>, now: int, loadTime: int, name: string)
    requires KeysBelow(s) && name !in resources
    ensures var r := ItemPass(s, conf, projectId, resources, values, now, loadTime);
      First(s.items, ByName(name)).None? ==> First(r.items, ByName(name)).None?
    ensures var r := ItemPass(s, conf, projectId, resources, values, now, loadTime);
      First(s.items, ByName(name)).Some? ==>
        var f := ByItem(projectId, CatalogId(s.items, name), false);
        && First(r.items, ByName(name)) == First(s.items, ByName(name))
        && CatalogId(r.items, name) == CatalogId(s.items, name)
        && First(r.itemRecords, f) == First(s.itemRecords, f)
        && |s.itemRecords| <= |r.itemRecords|
        && forall j :: 0 <= j < |s.itemRecords| && IntField(s.itemRecords[j], ItemId) == CatalogId(s.items, name) ==>
                         r.itemRecords[j] == s.itemRecords[j]
    decreases |resources|
  {
    if resources != [] {
      var rs := resources[..|resources| - 1];
      var item := resources[|resources| - 1];
      assert name !in rs by { assert forall x :: x in rs ==> x in resources; }
      ItemPassFrame(s, conf, projectId, rs, values, now, loadTime, name);
      ItemPassKeysBelow(s, conf, projectId, rs, values, now, loadTime);
      var t := ItemPass(s, conf, projectId, rs, values, now, loadTime);
      var d := ItemPassValues(s, conf, projectId, rs, values, now, loadTime);
      if First(s.items, ByName(name)).None? {
        ItemStepAbsent(t, conf, projectId, item, d, now, loadTime, name);
      } else {
        ItemStepFrame(t, conf, projectId, item, d, now, loadTime, name);
      }
    }
  }

  /** What `project_item_record_update` writes for `item`, from the tables
      `s` before the pass to `r` after it: the item is in the catalog and has
      an active record; if it had one, that record (at the same place) got
      the truncated usage and `updated_at`, everything else in it unchanged;
      otherwise the active record is new. */
  ghost predicate ItemWritten(s: Tables, r: Tables, conf: Config, projectId: string, item: string, used: real, now: int) {
    && First(r.items, ByName(item)).Some?
    && var id := CatalogId(r.items, item);
       var f := ByItem(projectId, id, false);
       && First(r.itemRecords, f).Some?
       && var k := First(r.itemRecords, f).value;
          match First(s.itemRecords, f)
          case Some(k0) =>
            k == k0 && r.itemRecords[k] == WrittenRow(s.itemRecords[k], id, used, now)
          case None =>
            |s.itemRecords| <= k && CreatedRecord(r.itemRecords[k], projectId, id, ConfPrice(conf, item), now)
  }

  /** The step for `item` writes it as `ItemWritten` says. */
  lemma ItemStepWrites(s: Tables, conf: Config, projectId: string, item: string,
                       values: map<string, real>, now: int, loadTime: int)
    requires KeysBelow(s) && item in values
    ensures ItemWritten(s, ItemStep(s, conf, projectId, item, values, now, loadTime), conf, projectId, item, values[item], now)
  {
    var s1 := WithItem(s, item, loadTime);
    RecordWriteWrites(s1, projectId, CatalogId(s1.items, item), values[item], ConfPrice(conf, item), now, loadTime);
  }

  /** What a pass wrote for an item survives a later step for another
      item. */
  lemma ItemWrittenCarries(s: Tables, t: Tables, conf: Config, projectId: string, item: string, used: real,
                           values: map<string, real>, now: int, loadTime: int, other: string)
    requires KeysBelow(t) && other != item
    requires ItemWritten(s, t, conf, projectId, item, used, now)
    ensures ItemWritten(s, ItemStep(t, conf, projectId, other, values, now, loadTime), conf, projectId, item, used, now)
  {
    var r := ItemStep(t, conf, projectId, other, values, now, loadTime);
    ItemStepFrame(t, conf, projectId, other, values, now, loadTime, item);
    var id := CatalogId(t.items, item);
    var f := ByItem(projectId, id, false);
    var k := First(t.itemRecords, f).value;
    assert IntField(t.itemRecords[k], ItemId) == id;
    assert r.itemRecords[k] == t.itemRecords[k];
  }

  /** The step for an item not met before in the pass writes it as
      `ItemWritten` says, relative to the tables before the whole pass, and
      it creates the record exactly when those tables had no active one. */
  lemma ItemPassWritesLast(s: Tables, conf: Config, projectId: string, resources: seq<string>,
                           values: map<string, real>, now: int, loadTime: int, item: string)
    requires KeysBelow(s) && item !in resources && item in values
    ensures var t := ItemPass(s, conf, projectId, resources, values, now, loadTime);
      var d := ItemPassValues(s, conf, projectId, resources, values, now, loadTime);
      var r := ItemStep(t, conf, projectId, item, d, now, loadTime);
      && ItemWritten(s, r, conf, projectId, item, values[item], now)
      && (StepCreates(t, projectId, item, d, loadTime) <==>
            First(s.itemRecords, ByItem(projectId, CatalogId(r.items, item), false)).None?)
  {
    var t := ItemPass(s, conf, projectId, resources, values, now, loadTime);
    var d := ItemPassValues(s, conf, projectId, resources, values, now, loadTime);
    var r := ItemStep(t, conf, projectId, item, d, now, loadTime);
    ItemPassValuesFrame(s, conf, projectId, resources, values, now, loadTime, item);
    ItemPassKeysBelow(s, conf, projectId, resources, values, now, loadTime);
    ItemPassFrame(s, conf, projectId, resources, values, now, loadTime, item);
    ItemPassFrameOthers(s, conf, projectId, resources, values, now, loadTime);
    ItemStepWrites(t, conf, projectId, item, d, now, loadTime);
    WithItemKeysBelow(t, item, loadTime);
    assert r.items == WithItem(t, item, loadTime).items;
    var id := CatalogId(r.items, item);
    var f := ByItem(projectId, id, false);
    if First(s.items, ByName(item)).None? {
      assert id == t.nextId;
      assert First(s.itemRecords, f).None? by {
        forall j | 0 <= j < |s.itemRecords| ensures !Matches(s.itemRecords[j], f) {
          assert IntField(s.itemRecords[j], ItemId) < s.nextId;
        }
      }
      assert First(t.itemRecords, f).None? by {
        forall j | 0 <= j < |t.itemRecords| ensures !Matches(t.itemRecords[j], f) {
          assert IntField(t.itemRecords[j], ItemId) < t.nextId;
        }
      }
    } else {
      assert id == CatalogId(s.items, item);
      match First(s.itemRecords, f)
      case Some(k0) =>
        assert IntField(s.itemRecords[k0], ItemId) == id;
        assert t.itemRecords[k0] == s.itemRecords[k0];
      case None =>
    }
  }

  /** The usage dict's entry for `item` once the pass has written it: the
      truncated usage when the item had an active record before the pass,
      0 when the pass created one. */
  ghost predicate DictWritten(s: Tables, r: Tables, projectId: string, item: string, used: real,
                              d: map<string, real>)
    requires First(r.items, ByName(item)).Some?
  {
    && item in d
    && d[item] == if First(s.itemRecords, ByItem(projectId, CatalogId(r.items, item), false)).Some?
                  then Int(used) as real else 0.0
  }

  /** `int()` of a whole number gives it back. */
  lemma IntOfWhole(n: int)
    ensures Int(n as real) == n
  {
  }

  /** Writing a dict entry twice leaves the second value. */
  lemma OverwriteEntry(m: map<string, real>, k: string, a: real, b: real)
    ensures m[k := a][k := b] == m[k := b]
  {
  }

  /** The write sees the usage only through `int()`, so writing the
      truncated usage writes the same. */
  lemma RecordWriteTruncated(s: Tables, projectId: string, itemId: int, used: real, price: int, now: int, loadTime: int)
    ensures RecordWrite(s, projectId, itemId, Int(used) as real, price, now, loadTime) ==
            RecordWrite(s, projectId, itemId, used, price, now, loadTime)
  {
    IntOfWhole(Int(used));
    assert UsedValue(Int(used) as real, itemId) == UsedValue(used, itemId);
  }

  /** Writing a record a second time with the truncated usage changes
      nothing more. */
  lemma WrittenRowAgain(row: Row, itemId: int, used: real, now: int)
    ensures WrittenRow(WrittenRow(row, itemId, used, now), itemId, Int(used) as real, now) ==
            WrittenRow(row, itemId, used, now)
  {
    IntOfWhole(Int(used));
    assert UsedValue(Int(used) as real, itemId) == UsedValue(used, itemId);
  }

  /** Writing a created record with the `used = 0` its creation left in the
      dict keeps it as created. */
  lemma WrittenKeepsCreated(row: Row, projectId: string, itemId: int, price: int, now: int)
    requires CreatedRecord(row, projectId, itemId, price, now)
    ensures CreatedRecord(WrittenRow(row, itemId, 0.0, now), projectId, itemId, price, now)
  {
    var w := WrittenRow(row, itemId, 0.0, now);
    assert w == row + map[Used := IntVal(0), ItemId := IntVal(itemId), UpdatedAt := IntVal(now)];
  }

  /** A further step for an item already written, with the dict that
      earlier step left, writes the same record again. */
  lemma ItemStepRepeat(s: Tables, t: Tables, conf: Config, projectId: string, item: string, used: real,
                       d: map<string, real>, now: int, loadTime: int)
    requires KeysBelow(t) && ItemWritten(s, t, conf, projectId, item, used, now)
    requires DictWritten(s, t, projectId, item, used, d)
    ensures var r := ItemStep(t, conf, projectId, item, d, now, loadTime);
      && ItemWritten(s, r, conf, projectId, item, used, now)
      && DictWritten(s, r, projectId, item, used, StepValues(t, projectId, item, d, loadTime))
  {
    var id := CatalogId(t.items, item);
    var f := ByItem(projectId, id, false);
    var k := First(t.itemRecords, f).value;
    assert WithItem(t, item, loadTime) == t;
    var r := RecordWrite(t, projectId, id, d[item], ConfPrice(conf, item), now, loadTime);
    assert ItemStep(t, conf, projectId, item, d, now, loadTime) == r;
    RecordWriteWrites(t, projectId, id, d[item], ConfPrice(conf, item), now, loadTime);
    assert !StepCreates(t, projectId, item, d, loadTime);
    IntOfWhole(Int(used));
    IntOfWhole(0);
    match First(s.itemRecords, f)
    case Some(k0) =>
      WrittenRowAgain(s.itemRecords[k], id, used, now);
    case None =>
      WrittenKeepsCreated(t.itemRecords[k], projectId, id, ConfPrice(conf, item), now);
  }

  /** Every resource the usage dict covers is written as `ItemWritten`
      says, relative to the tables before the pass, and the dict keeps the
      entry that write leaves in it.  A resource listed more than once is
      written again with that entry, which leaves the record as the first
      write made it. */
  lemma {:induction false} ItemPassWrites(s: Tables, conf: Config, projectId: string, resources: seq<string>,
                                         values: map<string, real>, now: int, loadTime: int, item: string)
    requires KeysBelow(s) && item in resources && item in values
    ensures var r := ItemPass(s, conf, projectId, resources, values, now, loadTime);
      && ItemWritten(s, r, conf, projectId, item, values[item], now)
      && DictWritten(s, r, projectId, item, values[item], ItemPassValues(s, conf, projectId, resources, values, now, loadTime))
    decreases |resources|
  {
    var rs := resources[..|resources| - 1];
    var last := resources[|resources| - 1];
    var t := ItemPass(s, conf, projectId, rs, values, now, loadTime);
    var d := ItemPassValues(s, conf, projectId, rs, values, now, loadTime);
    assert resources == rs + [last];
    ItemPassKeysBelow(s, conf, projectId, rs, values, now, loadTime);
    if last == item && item !in rs {
      ItemPassWritesLast(s, conf, projectId, rs, values, now, loadTime, item);
      ItemPassValuesFrame(s, conf, projectId, rs, values, now, loadTime, item);
    } else {
      assert item in rs by { assert exists j :: 0 <= j < |resources| && resources[j] == item; }
      ItemPassWrites(s, conf, projectId, rs, values, now, loadTime, item);
      if last == item {
        ItemStepRepeat(s, t, conf, projectId, item, values[item], d, now, loadTime);
      } else {
        ItemWrittenCarries(s, t, conf, projectId, item, values[item], d, now, loadTime, last);
        ItemStepFrame(t, conf, projectId, last, d, now, loadTime, item);
      }
    }
  }

  /** A pass only appends catalog entries and leaves the project accounts
      and the records of other projects alone; every record it adds belongs
      to the project. */
  lemma {:induction false} ItemPassFrameOthers(s: Tables, conf: Config, projectId: string, resources: seq<string>,
                                              values: map<string, real>, now: int, loadTime: int)
    ensures var r := ItemPass(s, conf, projectId, resources, values, now, loadTime);
      && r.projectRecords == s.projectRecords
      && s.items <= r.items
      && |s.itemRecords| <= |r.itemRecords|
      && (forall j :: 0 <= j < |s.itemRecords| && StrField(s.itemRecords[j], ProjectId) != projectId ==>
                        r.itemRecords[j] == s.itemRecords[j])
      && (forall j :: |s.itemRecords| <= j < |r.itemRecords| ==>
                        GetItem(r.itemRecords[j], ProjectId) == Some(StrVal(projectId)))
    decreases |resources|
  {
    if resources != [] {
      var rs := resources[..|resources| - 1];
      var item := resources[|resources| - 1];
      ItemPassFrameOthers(s, conf, projectId, rs, values, now, loadTime);
      var t := ItemPass(s, conf, projectId, rs, values, now, loadTime);
      var r := ItemPass(s, conf, projectId, resources, values, now, loadTime);
      var d := ItemPassValues(s, conf, projectId, rs, values, now, loadTime);
      var s1 := WithItem(t, item, loadTime);
      if item in d {
        RecordWriteOthers(s1, projectId, CatalogId(s1.items, item), d[item], ConfPrice(conf, item), now, loadTime);
      }
    }
  }

  /** Every resource is in the catalog after the pass. */
  lemma {:induction false} ItemPassCatalog(s: Tables, conf: Config, projectId: string, resources: seq<string>,
                                          values: map<string, real>, now: int, loadTime: int, item: string)
    requires item in resources
    ensures First(ItemPass(s, conf, projectId, resources, values, now, loadTime).items, ByName(item)).Some?
    decreases |resources|
  {
    var rs := resources[..|resources| - 1];
    var last := resources[|resources| - 1];
    var t := ItemPass(s, conf, projectId, rs, values, now, loadTime);
    var r := ItemPass(s, conf, projectId, resources, values, now, loadTime);
    if last != item {
      assert item in rs by { assert exists j :: 0 <= j < |resources| && resources[j] == item; }
      ItemPassCatalog(s, conf, projectId, rs, values, now, loadTime, item);
      FirstPrefix(t.items, r.items, ByName(item));
    }
  }

  /** `Items`: the usage of one pass, written into the item ledger. */
  class Items {
    const db: Database
    const conf: Config
    const projectId: string
    const resources: seq<string>
    /** Per item, the usage of this pass (`values[item]["used"]`).  It is
        the caller's dict, which the loop updates in place. */
    var values: map<string, real>

    constructor (db: Database, conf: Config, projectId: string, resources: seq<string>, values: map<string, real>)
      ensures this.db == db && this.conf == conf && this.projectId == projectId
      ensures this.resources == resources && this.values == values
    {
      this.db, this.conf, this.projectId := db, conf, projectId;
      this.resources, this.values := resources, values;
    }

    /** `project_item_record_update`. */
    method ProjectItemRecordUpdate(now: int)
      requires db.Valid()
      modifies db, this
      ensures db.Valid()
      ensures db.State() == ItemPass(old(db.State()), conf, projectId, resources, old(values), now, db.loadTime)
      ensures values == ItemPassValues(old(db.State()), conf, projectId, resources, old(values), now, db.loadTime)
      ensures old(OneActivePerItem(db.itemRecords)) ==> OneActivePerItem(db.itemRecords)
    {
      ghost var s0, v0 := db.State(), values;
      var i := 0;
      while i < |resources|
        invariant 0 <= i <= |resources|
        invariant db.Valid()
        invariant db.State() == ItemPass(s0, conf, projectId, resources[..i], v0, now, db.loadTime)
        invariant values == ItemPassValues(s0, conf, projectId, resources[..i], v0, now, db.loadTime)
        invariant old(OneActivePerItem(db.itemRecords)) ==> OneActivePerItem(db.itemRecords)
      {
        ghost var t, d := db.State(), values;
        assert resources[..i + 1][..i] == resources[..i];
        WriteItem(resources[i], now);
        assert db.State() == ItemStep(t, conf, projectId, resources[i], d, now, db.loadTime);
        assert values == StepValues(t, projectId, resources[i], d, db.loadTime);
        i := i + 1;
      }
      assert resources[..i] == resources;
    }

    /** One iteration of the loop of `project_item_record_update`. */
    method WriteItem(item: string, now: int)
      requires db.Valid()
      modifies db, this
      ensures db.Valid()
      ensures db.State() == ItemStep(old(db.State()), conf, projectId, item, old(values), now, db.loadTime)
      ensures values == StepValues(old(db.State()), projectId, item, old(values), db.loadTime)
      ensures old(OneActivePerItem(db.itemRecords)) ==> OneActivePerItem(db.itemRecords)
    {
      ghost var s0, v0 := db.State(), values;
      if db.ItemGetByName(item).None? {
        db.ItemCreate(item);
      }
      ghost var s1 := db.State();
      assert s1 == WithItem(s0, item, db.loadTime);
      var resource := db.ItemGetByName(item).value;
      if item in values {
        var id := IntField(resource, Id);
        assert id == CatalogId(s1.items, item);
        assert db.IsItemId(id) by {
          assert IntField(db.items[First(db.items, ByName(item)).value], Id) == id;
        }
        WriteUsage(item, id, now);
        assert values == v0[item := if StepCreates(s0, projectId, item, v0, db.loadTime) then 0.0 else Int(v0[item]) as real];
      }
    }

    /** The write of an item's usage, in the loop body of
        `project_item_record_update`: the usage in the caller's dict is
        truncated, the record written, and the dict's usage left at 0 when
        the record was created. */
    method WriteUsage(item: string, id: int, now: int)
      requires db.Valid() && db.IsItemId(id) && item in values
      modifies db, this
      ensures db.Valid()
      ensures db.State() == RecordWrite(old(db.State()), projectId, id, old(values)[item], ConfPrice(conf, item), now, db.loadTime)
      ensures values == old(values)[item := if First(old(db.itemRecords), ByItem(projectId, id, false)).None?
                                            then 0.0 else Int(old(values)[item]) as real]
      ensures old(OneActivePerItem(db.itemRecords)) ==> OneActivePerItem(db.itemRecords)
    {
      ghost var s1, v0 := db.State(), values;
      var used := values[item];
      // `value['used'] = int(value['used'])`, in the caller's dict.
      values := values[item := Int(used) as real];
      ghost var v1 := values;
      RecordWriteTruncated(s1, projectId, id, used, ConfPrice(conf, item), now, db.loadTime);
      var created := WriteRecord(id, Int(used) as real, ConfPrice(conf, item), now);
      assert values == v1;
      if created {
        // `item_record_create_for_project` sets `used` to 0 in that same dict.
        values := values[item := 0.0];
        OverwriteEntry(v0, item, Int(used) as real, 0.0);
      }
    }

    /** The record write of one iteration: `item_record_update_for_project`,
        and on ProjectItemRecordNotFound `item_record_create_for_project` with
        the default expiry and price added to the same dict. */
    method WriteRecord(id: int, used: real, price: int, now: int) returns (created: bool)
      requires db.Valid() && db.IsItemId(id)
      modifies db
      ensures db.Valid()
      ensures created <==> First(old(db.itemRecords), ByItem(projectId, id, false)).None?
      ensures db.State() == RecordWrite(old(db.State()), projectId, id, used, price, now, db.loadTime)
      ensures old(OneActivePerItem(db.itemRecords)) ==> OneActivePerItem(db.itemRecords)
    {
      var found := UpdateRecord(id, used, price, now);
      created := !found;
      if created {
        CreateRecord(id, used, price, now);
      }
    }

    /** `item_record_update_for_project` with the usage dict: the active
        record is written in place, or nothing changes when there is none. */
    method UpdateRecord(id: int, used: real, price: int, now: int) returns (found: bool)
      requires db.Valid() && db.IsItemId(id)
      modifies db
      ensures db.Valid() && db.IsItemId(id)
      ensures found <==> First(old(db.itemRecords), ByItem(projectId, id, false)).Some?
      ensures found ==> db.State() == RecordWrite(old(db.State()), projectId, id, used, price, now, db.loadTime)
      ensures !found ==> db.State() == old(db.State())
      ensures old(OneActivePerItem(db.itemRecords)) ==> OneActivePerItem(db.itemRecords)
    {
      RecordWriteCases(db.State(), projectId, id, used, price, now, db.loadTime);
      var r := db.ItemRecordUpdateForProject(projectId, UsedValue(used, id), now);
      found := r.Ok?;
    }

    /** `item_record_create_for_project` with the stamped dict, the expiry
        and the configured price, when the pair has no active record. */
    method CreateRecord(id: int, used: real, price: int, now: int)
      requires db.Valid() && db.IsItemId(id)
      requires First(db.itemRecords, ByItem(projectId, id, false)).None?
      modifies db
      ensures db.Valid()
      ensures db.State() == RecordWrite(old(db.State()), projectId, id, used, price, now, db.loadTime)
      ensures old(OneActivePerItem(db.itemRecords)) ==> OneActivePerItem(db.itemRecords)
    {
      RecordWriteCases(db.State(), projectId, id, used, price, now, db.loadTime);
      var vals := DefaultRecordValues(UsedValue(used, id), price, now);
      var created := db.ItemRecordCreateForProject(projectId, vals, now);
    }
  }

  // ---------------------------------------------------------------- exhaustion enforcer

  /** The user loop of `_handle_project_billing_exhausted` over `users`: each
      user whose quota is not already zero on both cores and ram is set to
      zero, and the update is issued. */
  function ZeroUsers(s: NovaState, projectId: string, users: seq<string>): NovaState
    decreases |users|
  {
    if users == [] then s
    else
      var s1 := ZeroUsers(s, projectId, users[..|users| - 1]);
      var u := users[|users| - 1];
      if IsZero(UserQuotaOf(s1, projectId, u)) then s1
      else s1.(userQuotas := s1.userQuotas[(projectId, u) := Quota(0, 0)],
               updates := s1.updates + [UserQuotaUpdate(projectId, u, 0, 0)])
  }

  /** The tenant step: the tenant quota is set to zero unless it already is. */
  function ZeroTenant(s: NovaState, projectId: string): NovaState {
    if IsZero(TenantQuotaOf(s, projectId)) then s
    else s.(tenantQuotas := s.tenantQuotas[projectId := Quota(0, 0)],
            updates := s.updates + [TenantQuotaUpdate(projectId, 0, 0)])
  }

  /** `_handle_project_billing_exhausted`: every user of the tenant, then the
      tenant itself.  Servers are only listed (their deletion is commented
      out in the source). */
  function Enforce(s: NovaState, projectId: string): NovaState {
    ZeroTenant(ZeroUsers(s, projectId, UsersOf(s, projectId)), projectId)
  }

  /** The user loop touches only the user quotas of the listed users of
      the tenant, and only appends to the update log. */
  lemma {:induction false} ZeroUsersFrame(s: NovaState, projectId: string, users: seq<string>)
    ensures var r := ZeroUsers(s, projectId, users);
      && r.defaultQuota == s.defaultQuota && r.users == s.users && r.servers == s.servers
      && r.tenantQuotas == s.tenantQuotas && s.updates <= r.updates
      && (forall p, u :: p != projectId || u !in users ==> UserQuotaOf(r, p, u) == UserQuotaOf(s, p, u))
    decreases |users|
  {
    if users != [] {
      var us := users[..|users| - 1];
      assert forall u :: u in us ==> u in users;
      ZeroUsersFrame(s, projectId, us);
    }
  }

  /** After the user loop every listed user has zero cores and zero ram. */
  lemma {:induction false} ZeroUsersZeroes(s: NovaState, projectId: string, users: seq<string>)
    ensures forall u :: u in users ==> IsZero(UserQuotaOf(ZeroUsers(s, projectId, users), projectId, u))
    decreases |users|
  {
    if users != [] {
      var us := users[..|users| - 1];
      var u := users[|users| - 1];
      assert forall x :: x in users ==> x in us || x == u;
      ZeroUsersZeroes(s, projectId, us);
    }
  }

  /** Every update the user loop issues zeroes a listed user of the tenant
      whose quota was not zero before the loop. */
  lemma {:induction false} ZeroUsersIssued(s: NovaState, projectId: string, users: seq<string>)
    ensures var r := ZeroUsers(s, projectId, users);
      forall i :: |s.updates| <= i < |r.updates| ==>
        && r.updates[i].UserQuotaUpdate? && r.updates[i].projectId == projectId
        && r.updates[i].ram == 0 && r.updates[i].cores == 0
        && r.updates[i].userId in users && !IsZero(UserQuotaOf(s, projectId, r.updates[i].userId))
    decreases |users|
  {
    if users != [] {
      var us := users[..|users| - 1];
      var u := users[|users| - 1];
      assert forall x :: x in us ==> x in users;
      ZeroUsersIssued(s, projectId, us);
      ZeroUsersFrame(s, projectId, us);
      var s1 := ZeroUsers(s, projectId, us);
      if !IsZero(UserQuotaOf(s1, projectId, u)) {
        ZeroUsersZeroes(s, projectId, us);
        assert u !in us;
      }
    }
  }

  /** Every listed user whose quota was not zero gets an update. */
  lemma {:induction false} ZeroUsersCovers(s: NovaState, projectId: string, users: seq<string>)
    ensures var r := ZeroUsers(s, projectId, users);
      s.updates <= r.updates &&
      forall u :: u in users && !IsZero(UserQuotaOf(s, projectId, u)) ==>
        UserQuotaUpdate(projectId, u, 0, 0) in r.updates[|s.updates|..]
    decreases |users|
  {
    ZeroUsersFrame(s, projectId, users);
    if users != [] {
      var us := users[..|users| - 1];
      var u := users[|users| - 1];
      assert forall x :: x in users ==> x in us || x == u;
      ZeroUsersCovers(s, projectId, us);
      ZeroUsersFrame(s, projectId, us);
      var s1 := ZeroUsers(s, projectId, us);
      var r := ZeroUsers(s, projectId, users);
      if !IsZero(UserQuotaOf(s1, projectId, u)) {
        assert r.updates[|s.updates|..] == s1.updates[|s.updates|..] + [UserQuotaUpdate(projectId, u, 0, 0)];
      } else {
        assert r == s1;
      }
    }
  }

  /** Over users whose quotas are all zero already, the loop changes
      nothing. */
  lemma {:induction false} ZeroUsersNoop(s: NovaState, projectId: string, users: seq<string>)
    requires forall u :: u in users ==> IsZero(UserQuotaOf(s, projectId, u))
    ensures ZeroUsers(s, projectId, users) == s
    decreases |users|
  {
    if users != [] {
      var us := users[..|users| - 1];
      assert forall u :: u in us ==> u in users;
      ZeroUsersNoop(s, projectId, us);
      assert users[|users| - 1] in users;
    }
  }

  /** After the enforcer, every user of the tenant and the tenant itself have
      zero cores and zero ram; users, servers and every other quota are as
      they were. */
  lemma EnforceZeroes(s: NovaState, projectId: string)
    ensures var r := Enforce(s, projectId);
      && r.users == s.users && r.servers == s.servers
      && (forall u :: u in UsersOf(s, projectId) ==> IsZero(UserQuotaOf(r, projectId, u)))
      && IsZero(TenantQuotaOf(r, projectId))
      && (forall p :: p != projectId ==> TenantQuotaOf(r, p) == TenantQuotaOf(s, p))
      && (forall p, u :: p != projectId || u !in UsersOf(s, projectId) ==> UserQuotaOf(r, p, u) == UserQuotaOf(s, p, u))
  {
    var users := UsersOf(s, projectId);
    ZeroUsersFrame(s, projectId, users);
    ZeroUsersZeroes(s, projectId, users);
  }

  /** The enforcer only appends to the update log, issues a user update only
      for a user whose quota was not zero, and issues the tenant update
      exactly when the tenant quota was not zero. */
  lemma EnforceUpdates(s: NovaState, projectId: string)
    ensures var r := Enforce(s, projectId);
      && s.updates <= r.updates
      && (forall i :: |s.updates| <= i < |r.updates| && r.updates[i].UserQuotaUpdate? ==>
            !IsZero(UserQuotaOf(s, projectId, r.updates[i].userId)))
      && (TenantQuotaUpdate(projectId, 0, 0) in r.updates[|s.updates|..] <==> !IsZero(TenantQuotaOf(s, projectId)))
  {
    var users := UsersOf(s, projectId);
    ZeroUsersFrame(s, projectId, users);
    ZeroUsersIssued(s, projectId, users);
    var s1 := ZeroUsers(s, projectId, users);
    var r := Enforce(s, projectId);
    assert TenantQuotaOf(s1, projectId) == TenantQuotaOf(s, projectId);
    assert forall i :: |s.updates| <= i < |s1.updates| ==> !s1.updates[i].TenantQuotaUpdate?;
    if !IsZero(TenantQuotaOf(s1, projectId)) {
      assert r.updates[|s.updates|..] == s1.updates[|s.updates|..] + [TenantQuotaUpdate(projectId, 0, 0)];
    } else {
      assert r == s1;
    }
  }

  /** Handling exhaustion twice is handling it once: the second run finds
      every quota at zero and issues no update. */
  lemma EnforceIdempotent(s: NovaState, projectId: string)
    ensures Enforce(Enforce(s, projectId), projectId) == Enforce(s, projectId)
  {
    var r := Enforce(s, projectId);
    EnforceZeroes(s, projectId);
    ZeroUsersNoop(r, projectId, UsersOf(r, projectId));
  }

  // ---------------------------------------------------------------- account ledger write

  /** The vdollars a new account starts with. */
  const InitialAmount: int := 1000

  /** The dict `project_account_update` creates a missing account from. */
  function InitialAccount(now: int): Row {
    map[Amount := IntVal(InitialAmount), Used := IntVal(0),
        Description := StrVal("Initial vdollar for project is 1000"), Until := IntVal(now + Day)]
  }

  /** The initial dict is well typed and gives the columns an account is
      created with. */
  lemma InitialAccountShape(now: int)
    ensures var v := InitialAccount(now);
      Typed(v) && Id !in v && Amount in v && Used in v && Until in v
  {
  }

  /** The account `record_create_for_project` builds from the initial dict. */
  function CreatedAccount(id: int, loadTime: int, projectId: string, now: int): Row {
    NewRecord(id, loadTime) +
    InitialAccount(now)[ProjectId := StrVal(projectId)][CreatedAt := IntVal(now)][UpdatedAt := IntVal(now)]
  }

  /** A created account holds 1000 vdollars, nothing used, and expires one
      day from now.  Since the exhaustion test reads the total from the
      supplied dict, not from the new account, it then holds exactly when
      that total exceeds 1000. */
  lemma CreatedAccountFields(id: int, loadTime: int, projectId: string, now: int, used: int)
    ensures var a := CreatedAccount(id, loadTime, projectId, now);
      && GetItem(a, Amount) == Some(IntVal(1000)) && GetItem(a, Used) == Some(IntVal(0))
      && GetItem(a, Until) == Some(IntVal(now + Day))
      && GetItem(a, Description) == Some(StrVal("Initial vdollar for project is 1000"))
      && GetItem(a, Id) == Some(IntVal(id)) && GetItem(a, CreatedAt) == Some(IntVal(now))
      && GetItem(a, ProjectId) == Some(StrVal(projectId)) && GetItem(a, Deleted) == Some(BoolVal(false))
      && (Exhausted(a, used, now) <==> 1000 < used)
  {
  }

  /** The active account after `record_update_for_project`. */
  function WrittenAccount(row: Row, values: Row, now: int): Row {
    row + values[UpdatedAt := IntVal(now)]
  }

  /** The supplied columns and `updated_at` are written; every other column
      is kept. */
  lemma WrittenAccountFields(row: Row, values: Row, now: int, c: Column)
    ensures GetItem(WrittenAccount(row, values, now), UpdatedAt) == Some(IntVal(now))
    ensures c in values && c != UpdatedAt ==> GetItem(WrittenAccount(row, values, now), c) == Some(values[c])
    ensures c !in values && c != UpdatedAt ==> GetItem(WrittenAccount(row, values, now), c) == GetItem(row, c)
  {
  }

  /** The account ledger after the write of `project_account_update`: the
      supplied columns and `updated_at` go into the active account of the
      project, or, when it has none, an account is created from the
      initial dict. */
  function AccountWrite(s: Tables, projectId: string, values: Row, now: int, loadTime: int): Tables {
    match First(s.projectRecords, ByProjectState(projectId, false))
    case Some(k) => s.(projectRecords := s.projectRecords[k := WrittenAccount(s.projectRecords[k], values, now)])
    case None =>
      s.(projectRecords := s.projectRecords + [CreatedAccount(s.nextId, loadTime, projectId, now)], nextId := s.nextId + 1)
  }

  /** `record_get_for_project(project_id)` over the tables `s`. */
  function AccountOf(s: Tables, projectId: string): Result<Row> {
    match First(s.projectRecords, ByProjectState(projectId, false))
    case None => NotFound
    case Some(k) => Ok(s.projectRecords[k])
  }

  /** The exhaustion test: the amount is below the usage total, or the
      account has expired. */
  predicate Exhausted(account: Row, used: int, now: int) {
    IntField(account, Amount) < used || now > IntField(account, Until)
  }

  /** The write leaves the item tables alone and removes no account; unless
      the supplied columns move the account to another project or soft
      delete it, the project has an active account afterwards. */
  lemma AccountWriteActive(s: Tables, projectId: string, values: Row, now: int, loadTime: int)
    ensures var r := AccountWrite(s, projectId, values, now, loadTime);
      r.items == s.items && r.itemRecords == s.itemRecords && |s.projectRecords| <= |r.projectRecords|
    ensures ProjectId !in values && Deleted !in values ==>
      AccountOf(AccountWrite(s, projectId, values, now, loadTime), projectId).Ok?
  {
    var f := ByProjectState(projectId, false);
    match First(s.projectRecords, f)
    case Some(k) =>
      if ProjectId !in values && Deleted !in values {
        var row := WrittenAccount(s.projectRecords[k], values, now);
        WrittenAccountFields(s.projectRecords[k], values, now, ProjectId);
        WrittenAccountFields(s.projectRecords[k], values, now, Deleted);
        FirstRewriteSame(s.projectRecords, k, row, f);
      }
    case None =>
      CreatedAccountFields(s.nextId, loadTime, projectId, now, 0);
      FirstAppend(s.projectRecords, CreatedAccount(s.nextId, loadTime, projectId, now), f);
  }

  /** Unless the supplied columns move the account to another project or
      soft delete it, every other project keeps the account it had. */
  /** The write keeps at most one active account per project: an account
      is created only when the project has none, and the update moves no
      account to another project and deletes none. */
  lemma AccountWriteOneActive(s: Tables, projectId: string, values: Row, now: int, loadTime: int)
    requires OneActivePerProject(s.projectRecords) && ProjectId !in values && Deleted !in values
    ensures OneActivePerProject(AccountWrite(s, projectId, values, now, loadTime).projectRecords)
  {
    var t := s.projectRecords;
    match First(t, ByProjectState(projectId, false))
    case Some(k) =>
      WrittenAccountFields(t[k], values, now, ProjectId);
      WrittenAccountFields(t[k], values, now, Deleted);
      RewriteKeepsOneActivePerProject(t, k, WrittenAccount(t[k], values, now));
    case None =>
      CreatedAccountFields(s.nextId, loadTime, projectId, now, 0);
      AppendKeepsOneActivePerProject(t, CreatedAccount(s.nextId, loadTime, projectId, now), projectId);
  }

  lemma AccountWriteOthers(s: Tables, projectId: string, values: Row, now: int, loadTime: int, other: string)
    requires ProjectId !in values && Deleted !in values && other != projectId
    ensures AccountOf(AccountWrite(s, projectId, values, now, loadTime), other) == AccountOf(s, other)
  {
    var g := ByProjectState(other, false);
    match First(s.projectRecords, ByProjectState(projectId, false))
    case Some(k) =>
      var row := WrittenAccount(s.projectRecords[k], values, now);
      WrittenAccountFields(s.projectRecords[k], values, now, ProjectId);
      FirstRewriteOther(s.projectRecords, k, row, g);
    case None =>
      CreatedAccountFields(s.nextId, loadTime, projectId, now, 0);
      FirstAppend(s.projectRecords, CreatedAccount(s.nextId, loadTime, projectId, now), g);
  }

  /** A project without an active account gets a new one, appended with the
      next primary key; the existing accounts are kept. */
  lemma AccountCreated(s: Tables, projectId: string, values: Row, now: int, loadTime: int)
    requires First(s.projectRecords, ByProjectState(projectId, false)).None?
    ensures var r := AccountWrite(s, projectId, values, now, loadTime);
      && r.projectRecords[..|s.projectRecords|] == s.projectRecords
      && r.nextId == s.nextId + 1
      && AccountOf(r, projectId) == Ok(CreatedAccount(s.nextId, loadTime, projectId, now))
  {
    var row := CreatedAccount(s.nextId, loadTime, projectId, now);
    CreatedAccountFields(s.nextId, loadTime, projectId, now, 0);
    FirstAppend(s.projectRecords, row, ByProjectState(projectId, false));
  }

  /** A project with an active account has the supplied columns and
      `updated_at` written into it, every other column kept; when the
      supplied columns leave the amount and the expiry alone, it is exhausted
      exactly when the stored amount is below the total or the stored expiry
      has passed. */
  lemma AccountUpdated(s: Tables, projectId: string, values: Row, now: int, loadTime: int, c: Column)
    requires First(s.projectRecords, ByProjectState(projectId, false)).Some?
    requires ProjectId !in values && Deleted !in values
    ensures var r := AccountWrite(s, projectId, values, now, loadTime);
      |r.projectRecords| == |s.projectRecords| && r.nextId == s.nextId
    ensures var a := AccountOf(AccountWrite(s, projectId, values, now, loadTime), projectId);
      var b := AccountOf(s, projectId);
      && a.Ok? && b.Ok?
      && GetItem(a.value, UpdatedAt) == Some(IntVal(now))
      && (c in values && c != UpdatedAt ==> GetItem(a.value, c) == Some(values[c]))
      && (c !in values && c != UpdatedAt ==> GetItem(a.value, c) == GetItem(b.value, c))
      && (Amount !in values && Until !in values ==>
            (Exhausted(a.value, IntField(values, Used), now) <==> Exhausted(b.value, IntField(values, Used), now)))
  {
    var k := First(s.projectRecords, ByProjectState(projectId, false)).value;
    var row := WrittenAccount(s.projectRecords[k], values, now);
    WrittenAccountFields(s.projectRecords[k], values, now, ProjectId);
    WrittenAccountFields(s.projectRecords[k], values, now, Deleted);
    WrittenAccountFields(s.projectRecords[k], values, now, Amount);
    WrittenAccountFields(s.projectRecords[k], values, now, Until);
    WrittenAccountFields(s.projectRecords[k], values, now, c);
    FirstRewriteSame(s.projectRecords, k, row, ByProjectState(projectId, false));
  }

  /** `TotalProjectRecord`: the project total written into the account
      ledger, and the enforcer run when the account is exhausted. */
  class TotalProjectRecord {
    const db: Database
    const nova: Nova
    const projectId: string
    /** The total dict `{"used": ...}`; the database layer stamps
        `updated_at` into it. */
    var values: Row

    constructor (db: Database, nova: Nova, projectId: string, values: Row)
      ensures this.db == db && this.nova == nova && this.projectId == projectId && this.values == values
    {
      this.db, this.nova, this.projectId := db, nova, projectId;
      this.values := values;
    }

    /** `_handle_project_billing_exhausted`: the quotas of every user of the
        tenant and of the tenant are set to zero where they are not zero
        already; the tenant's servers are listed and none is deleted. */
    method HandleProjectBillingExhausted() returns (servers: seq<string>)
      modifies nova
      ensures nova.State() == Enforce(old(nova.State()), projectId)
      ensures nova.servers == old(nova.servers) && servers == ServersOf(nova.State(), projectId)
    {
      ghost var s0 := nova.State();
      var users := UsersOf(nova.State(), projectId);
      var i := 0;
      while i < |users|
        invariant 0 <= i <= |users|
        invariant nova.State() == ZeroUsers(s0, projectId, users[..i])
      {
        assert users[..i + 1][..i] == users[..i];
        var q := UserQuotaOf(nova.State(), projectId, users[i]);
        if !(q.cores == 0 && q.ram == 0) {
          nova.UserQuotaSet(projectId, users[i], 0, 0);
        }
        i := i + 1;
      }
      assert users[..i] == users;
      var q := TenantQuotaOf(nova.State(), projectId);
      if !(q.cores == 0 && q.ram == 0) {
        nova.TenantQuotaSet(projectId, 0, 0);
      }
      EnforceZeroes(s0, projectId);
      servers := ServersOf(nova.State(), projectId);
    }

    /** `project_account_update`: the total is written into the active
        account, or the initial account is created when there is none; the
        account is read back, and the enforcer runs when it is exhausted.
        NotFound stands for the ProjectRecordNotFound the read-back raises
        when the written columns left no active account. */
    method ProjectAccountUpdate(now: int) returns (record: Result<Row>)
      requires db.Valid() && Typed(values) && Id !in values && Used in values
      modifies this, db, nova
      ensures db.Valid()
      ensures values == old(values)[UpdatedAt := IntVal(now)]
      ensures db.State() == AccountWrite(old(db.State()), projectId, old(values), now, db.loadTime)
      ensures record == AccountOf(db.State(), projectId)
      ensures nova.State() ==
        if record.Ok? && Exhausted(record.value, IntField(old(values), Used), now)
        then Enforce(old(nova.State()), projectId) else old(nova.State())
    {
      WriteAccount(now);
      record := db.RecordGetForProject(projectId, false);
      assert record == AccountOf(db.State(), projectId);
      ghost var t := db.State();
      CheckAccount(record, IntField(values, Used), now);
      assert db.State() == t;
    }

    /** The exhaustion test of `project_account_update` on the account read
        back, and the enforcer when it holds. */
    method CheckAccount(record: Result<Row>, used: int, now: int)
      modifies nova
      ensures nova.State() ==
        if record.Ok? && Exhausted(record.value, used, now) then Enforce(old(nova.State()), projectId) else old(nova.State())
    {
      if record.Ok? && (IntField(record.value, Amount) < used || now > IntField(record.value, Until)) {
        var servers := HandleProjectBillingExhausted();
      }
    }

    /** The write of `project_account_update`. */
    method WriteAccount(now: int)
      requires db.Valid() && Typed(values) && Id !in values
      modifies this, db
      ensures db.Valid()
      ensures values == old(values)[UpdatedAt := IntVal(now)]
      ensures db.State() == AccountWrite(old(db.State()), projectId, old(values), now, db.loadTime)
    {
      ghost var s0 := db.State();
      var r := db.RecordUpdateForProject(projectId, values, now);
      values := values[UpdatedAt := IntVal(now)];
      if r.NotFound? {
        assert db.State() == s0;
        InitialAccountShape(now);
        db.RecordCreateForProject(projectId, InitialAccount(now), now);
        assert db.projectRecords == s0.projectRecords + [CreatedAccount(s0.nextId, db.loadTime, projectId, now)];
      }
    }
  }
}
