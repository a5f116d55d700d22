/** The concurrent flush list: two memtables, a background thread that saves one of them,
    the disk tables and the loader, as interleaved steps of two threads. */
module FlushProtocol {
  import opened Keys
  import opened Pairs

  type Table = map<Key, Pair>

  /** A disk table with the greatest creation time it holds. */
  datatype Disk = Disk(data: Table, newest: nat)

  /** The saver thread reads one memtable, pair by pair. The field start remembers the
      contents the memtable had when the thread was started. */
  datatype Saver = Idle | Saving(slot: bool, start: Table, written: Disk)

  /** Where the main thread is: between calls, or inside flush. */
  datatype Phase =
    | Ready
    | Joining
    | Swapping
    | Starting
    | Clearing
    | Refreshing
    | Bumping
    | Cloning
    | Closing
    | Closed

  /** The memtables a and b; front says which one is list1_. The field last is history: the pair that
      the last accepted write of each key stored. */
  datatype Store = Store(
    a: Table, b: Table, front: bool, saver: Saver, tables: seq<Disk>, loaded: seq<Disk>,
    version: nat, phase: Phase, pending: Option<Pair>, last: Table)
  {
    function At(slot: bool): Table { if slot then a else b }

    function List1(): Table { At(front) }

    function List2(): Table { At(!front) }

    function With1(t: Table): Store {
      if front then this.(a := t) else this.(b := t)
    }
  }

  const Empty: Store := Store(map[], map[], true, Idle, [], [], 0, Ready, None, map[])

  // ---------- operations of the main thread ----------

  predicate Accepted(st: Status) {
    st.Inserted? || st.Replaced? || st.UpdatedInPlace?
  }

  /** insertF on list1_, with the history of accepted writes. */
  function Store1(s: Store, r: (Status, Table), k: Key): Store {
    if Accepted(r.0) && k in r.1 then s.With1(r.1).(last := s.last[k := r.1[k]]) else s.With1(r.1)
  }

  /** Inserting the clone of a finished pair: the time compared is the low half of the stamp. */
  function InsertClone(m: Table, p: Pair, env: Env): (Status, Table) {
    if p.key !in m then
      if env.memory then (Inserted, m[p.key := p]) else (ErrorNoMemory, m)
    else
      var prev := m[p.key];
      var low := p.created % 0x1_0000_0000;
      var simulated := if low != 0 then low * 0x1_0000_0000 else MAX_STAMP;
      if simulated < prev.created then
        (SkipInserted, m)
      else if env.owns && prev.Bytes() >= p.Bytes() then
        (UpdatedInPlace, m[p.key := p])
      else if env.memory then
        (Replaced, m[p.key := p])
      else
        (ErrorNoMemory, m)
  }

  lemma InsertChanges(m: Table, f: Factory, env: Env)
    ensures var r := Insert(m, f, env);
      && (forall j :: j != f.key ==> (j in r.1 <==> j in m) && (j in r.1 ==> r.1[j] == m[j]))
      && (Accepted(r.0) ==> f.key in r.1) && (!Accepted(r.0) ==> r.1 == m)
  {
  }

  lemma CloneChanges(m: Table, p: Pair, env: Env)
    ensures var r := InsertClone(m, p, env);
      && (forall j :: j != p.key ==> (j in r.1 <==> j in m) && (j in r.1 ==> r.1[j] == m[j]))
      && (Accepted(r.0) ==> p.key in r.1) && (!Accepted(r.0) ==> r.1 == m)
  {
  }

  /** Tables as the loader lists them: newest first, the order of equals is left open. */
  predicate Listing(order: seq<Disk>, tables: seq<Disk>) {
    && multiset(order) == multiset(tables)
    && forall i, j :: 0 <= i < j < |order| ==> order[i].newest >= order[j].newest
  }

  datatype Step =
    | InsertInto(f: Factory, env: Env)
    | InsertFlushing(f: Factory, env: Env, full: bool)
    | EraseNow(k: Key)
    | EraseMark(k: Key, env: Env)
    | Flush
    | Join
    | Swap
    | Start
    | Clear
    | Refresh(order: seq<Disk>)
    | Bump
    | Clone(env: Env)
    | Reload(order: seq<Disk>)
    | Close
    | CloseSave
    | SaveOne(k: Key)
    | SaveDone

  predicate Enabled(s: Store, step: Step) {
    match step
    case InsertInto(f, env) => s.phase == Ready && Insert(s.List1(), f, env).0 != ErrorNoMemory
    case InsertFlushing(f, env, full) =>
      s.phase == Ready && f.IsValid() && (full || Insert(s.List1(), f, env).0 == ErrorNoMemory)
    case EraseNow(k) => s.phase == Ready && s.loaded == [] && s.List2() == map[]
    case EraseMark(k, env) => s.phase == Ready && s.loaded == [] && s.List2() != map[]
    case Flush => s.phase == Ready
    case Join => s.phase == Joining && s.saver == Idle
    case Swap => s.phase == Swapping
    case Start => s.phase == Starting
    case Clear => s.phase == Clearing
    case Refresh(order) => s.phase == Refreshing && Listing(order, s.tables)
    case Bump => s.phase == Bumping
    case Clone(env) => s.phase == Cloning && s.pending.Some?
    case Reload(order) => s.phase == Ready && Listing(order, s.tables)
    case Close => s.phase == Ready
    case CloseSave => s.phase == Closing && s.saver == Idle
    case SaveOne(k) => s.saver.Saving? && k in s.At(s.saver.slot) && k !in s.saver.written.data
    case SaveDone => s.saver.Saving? && s.saver.written.data.Keys == s.At(s.saver.slot).Keys
  }

  /** One more pair at the end of a disk table under construction. */
  function Append(d: Disk, k: Key, p: Pair): Disk {
    Disk(d.data[k := p], if d.newest < p.created then p.created else d.newest)
  }

  function Do(s: Store, step: Step): Store
    requires Enabled(s, step)
  {
    match step
    case InsertInto(f, env) => Store1(s, Insert(s.List1(), f, env), f.key)
    case InsertFlushing(f, env, _) =>
      s.(pending := Some(f.Create(env.now)), phase := if s.List1() == map[] then Cloning else Joining)
    case EraseNow(k) => s.With1(Erase(s.List1(), k).1).(last := s.last - {k})
    case EraseMark(k, env) => Store1(s, Insert(s.List1(), Tombstone(k, 0), env), k)
    case Flush => if s.List1() == map[] then s else s.(phase := Joining)
    case Join => s.(phase := Swapping)
    case Swap => s.(front := !s.front, phase := Starting)
    case Start => s.(saver := Saving(!s.front, s.List2(), Disk(map[], 0)), phase := Clearing)
    case Clear => if s.List1() == map[] then s.(phase := Bumping) else s.With1(map[]).(phase := Refreshing)
    case Refresh(order) => s.(loaded := order, phase := Bumping)
    case Bump => s.(version := s.version + 1, phase := if s.pending.Some? then Cloning else Ready)
    case Clone(env) =>
      var p := s.pending.value;
      Store1(s.(pending := None, phase := Ready), InsertClone(s.List1(), p, env), p.key)
    case Reload(order) => s.(loaded := order)
    case Close => s.(phase := Closing)
    case CloseSave =>
      if s.List1() == map[] then s.(phase := Closed) else s.(saver := Saving(s.front, s.List1(), Disk(map[], 0)), phase := Closed)
    case SaveOne(k) => s.(saver := s.saver.(written := Append(s.saver.written, k, s.At(s.saver.slot)[k])))
    case SaveDone => s.(saver := Idle, tables := s.tables + [s.saver.written])
  }

  /** A run: every step enabled where it is taken. */
  predicate Legal(s: Store, run: seq<Step>)
    decreases |run|
  {
    run == [] || (Enabled(s, run[0]) && Legal(Do(s, run[0]), run[1..]))
  }

  function Exec(s: Store, run: seq<Step>): Store
    requires Legal(s, run)
    decreases |run|
  {
    if run == [] then s else Exec(Do(s, run[0]), run[1..])
  }

  ghost predicate Reachable(s: Store) {
    exists run :: Legal(Empty, run) && Exec(Empty, run) == s
  }

  // ---------- invariant ----------

  predicate Holds(t: Table, k: Key, p: Pair) {
    k in t && t[k] == p
  }

  ghost predicate OnDisk(disks: seq<Disk>, k: Key, p: Pair) {
    exists d :: d in disks && Holds(d.data, k, p)
  }

  ghost predicate Saved(t: Table, tables: seq<Disk>) {
    t == map[] || exists d :: d in tables && d.data == t
  }

  /** Both threads agree on which memtable is being saved, and nobody has changed it. */
  ghost predicate SaverInv(s: Store) {
    && (s.saver.Saving? ==>
         && s.At(s.saver.slot) == s.saver.start != map[]
         && (forall k :: k in s.saver.written.data ==> Holds(s.saver.start, k, s.saver.written.data[k])))
    && (s.phase != Closed ==> s.saver.Saving? ==> s.saver.slot == !s.front && !s.phase.Swapping? && !s.phase.Starting?)
    && (s.phase == Closed && s.saver.Saving? ==> s.saver.slot == s.front)
    && (s.phase == Closed && s.saver.Idle? ==> Saved(s.List1(), s.tables))
  }

  /** What has already reached the disk. */
  ghost predicate DiskInv(s: Store) {
    && ((s.saver.Idle? && s.phase != Starting) || s.phase == Closed ==> Saved(s.List2(), s.tables))
    && (s.phase in {Starting, Clearing} ==> Saved(s.List1(), s.tables))
    && (s.phase in {Joining, Swapping} ==> s.List1() != map[])
    && (s.phase in {Starting, Clearing, Refreshing, Bumping} ==> s.List2() != map[])
    && (s.phase in {Refreshing, Bumping, Cloning} ==> s.List1() == map[])
    && (s.List2() == map[] && s.phase != Closed ==> s.tables == [] && s.loaded == [] && s.saver == Idle)
    && (s.phase in {Cloning} ==> s.pending.Some?)
    && (forall d :: d in s.loaded ==> d in s.tables)
  }

  /** The last accepted write of every key is in a memtable or in a table, and outside of the
      moment between clearing and reloading in a table that readers see. */
  ghost predicate KeptInv(s: Store) {
    forall k :: k in s.last ==>
      Holds(s.List1(), k, s.last[k]) || Holds(s.List2(), k, s.last[k]) ||
      OnDisk(if s.phase == Refreshing then s.tables else s.loaded, k, s.last[k])
  }

  ghost predicate Inv(s: Store) {
    SaverInv(s) && DiskInv(s) && KeptInv(s)
  }

  lemma InvInsert(s: Store, r: (Status, Table), k: Key)
    requires Inv(s) && s.phase == Ready
    requires forall j :: j != k ==> (j in r.1 <==> j in s.List1()) && (j in r.1 ==> r.1[j] == s.List1()[j])
    requires Accepted(r.0) ==> k in r.1
    requires !Accepted(r.0) ==> r.1 == s.List1()
    ensures Inv(Store1(s, r, k))
  {
  }

  lemma InvInsertInto(s: Store, f: Factory, env: Env)
    requires Inv(s) && Enabled(s, InsertInto(f, env))
    ensures Inv(Do(s, InsertInto(f, env)))
  {
    InvInsert(s, Insert(s.List1(), f, env), f.key);
    hide Inv;
  }

  lemma InvInsertFlushing(s: Store, f: Factory, env: Env, full: bool)
    requires Inv(s) && Enabled(s, InsertFlushing(f, env, full))
    ensures Inv(Do(s, InsertFlushing(f, env, full)))
  {
  }

  lemma InvEraseNow(s: Store, k: Key)
    requires Inv(s) && Enabled(s, EraseNow(k))
    ensures Inv(Do(s, EraseNow(k)))
  {
  }

  lemma InvEraseMark(s: Store, k: Key, env: Env)
    requires Inv(s) && Enabled(s, EraseMark(k, env))
    ensures Inv(Do(s, EraseMark(k, env)))
  {
    InvInsert(s, Insert(s.List1(), Tombstone(k, 0), env), k);
    hide Inv;
  }

  lemma InvFlush(s: Store)
    requires Inv(s) && Enabled(s, Flush)
    ensures Inv(Do(s, Flush))
  {
  }

  lemma InvJoin(s: Store)
    requires Inv(s) && Enabled(s, Join)
    ensures Inv(Do(s, Join))
  {
  }

  lemma InvSwap(s: Store)
    requires Inv(s) && Enabled(s, Swap)
    ensures Inv(Do(s, Swap))
  {
  }

  lemma InvStart(s: Store)
    requires Inv(s) && Enabled(s, Start)
    ensures Inv(Do(s, Start))
  {
  }

  lemma InvClear(s: Store)
    requires Inv(s) && Enabled(s, Clear)
    ensures Inv(Do(s, Clear))
  {
  }

  lemma InvBump(s: Store)
    requires Inv(s) && Enabled(s, Bump)
    ensures Inv(Do(s, Bump))
  {
  }

  lemma InvClose(s: Store)
    requires Inv(s) && Enabled(s, Close)
    ensures Inv(Do(s, Close))
  {
  }

  lemma InvCloseSave(s: Store)
    requires Inv(s) && Enabled(s, CloseSave)
    ensures Inv(Do(s, CloseSave))
  {
  }

  lemma InvSaveDone(s: Store)
    requires Inv(s) && Enabled(s, SaveDone)
    ensures Inv(Do(s, SaveDone))
  {
  }

  lemma InvRefresh(s: Store, order: seq<Disk>)
    requires Inv(s) && Enabled(s, Refresh(order))
    ensures Inv(Do(s, Refresh(order)))
  {
    SameDisks(order, s.tables);
  }

  lemma InvReload(s: Store, order: seq<Disk>)
    requires Inv(s) && Enabled(s, Reload(order))
    ensures Inv(Do(s, Reload(order)))
  {
    SameDisks(order, s.tables);
  }

  lemma InvClone(s: Store, env: Env)
    requires Inv(s) && Enabled(s, Clone(env))
    ensures Inv(Do(s, Clone(env)))
  {
    var p := s.pending.value;
    InvInsert(s.(pending := None, phase := Ready), InsertClone(s.List1(), p, env), p.key);
  }

  lemma InvSaveOne(s: Store, k: Key)
    requires Inv(s) && Enabled(s, SaveOne(k))
    ensures Inv(Do(s, SaveOne(k)))
  {
  }

  lemma SameDisks(order: seq<Disk>, tables: seq<Disk>)
    requires Listing(order, tables)
    ensures forall d :: d in order <==> d in tables
  {
    forall d ensures d in order <==> d in tables {
      assert d in multiset(order) <==> d in multiset(tables);
    }
  }

  /** Every step of either thread keeps the invariant. */
  lemma InvStep(s: Store, step: Step)
    requires Inv(s) && Enabled(s, step)
    ensures Inv(Do(s, step))
  {
    hide Inv;
    hide Enabled;
    hide Do;
    match step
    case InsertInto(f, env) => InvInsertInto(s, f, env);
    case InsertFlushing(f, env, full) => InvInsertFlushing(s, f, env, full);
    case EraseNow(k) => InvEraseNow(s, k);
    case EraseMark(k, env) => InvEraseMark(s, k, env);
    case Flush => InvFlush(s);
    case Join => InvJoin(s);
    case Swap => InvSwap(s);
    case Start => InvStart(s);
    case Clear => InvClear(s);
    case Refresh(order) => InvRefresh(s, order);
    case Bump => InvBump(s);
    case Clone(env) => InvClone(s, env);
    case Reload(order) => InvReload(s, order);
    case Close => InvClose(s);
    case CloseSave => InvCloseSave(s);
    case SaveOne(k) => InvSaveOne(s, k);
    case SaveDone => InvSaveDone(s);
  }

  /** Every run keeps it. */
  lemma {:induction false} InvRun(s: Store, run: seq<Step>)
    requires Inv(s) && Legal(s, run)
    ensures Inv(Exec(s, run))
    decreases |run|
  {
    if run != [] {
      InvStep(s, run[0]);
      hide Inv;
      InvRun(Do(s, run[0]), run[1..]);
    }
  }

  // ---------- safety ----------

  /** The memtable being saved is never modified while the saver reads it, and the table that
      results is what the memtable held when the flush began. */
  lemma SavedListUntouched(s: Store, step: Step)
    requires Reachable(s) && Enabled(s, step) && s.saver.Saving?
    ensures var s' := Do(s, step);
      && s'.At(s.saver.slot) == s.At(s.saver.slot) == s.saver.start
      && (s'.saver.Saving? ==> s'.saver.slot == s.saver.slot && s'.saver.start == s.saver.start)
      && (s'.saver.Idle? ==> s'.tables == s.tables + [s.saver.written] && s.saver.written.data == s.saver.start)
  {
    hide Reachable;
    hide DiskInv;
    hide KeptInv;
    hide Insert;
    hide InsertClone;
    hide Listing;
    ReachableInv(s);
  }

  lemma ReachableInv(s: Store)
    requires Reachable(s)
    ensures Inv(s)
  {
    var run :| Legal(Empty, run) && Exec(Empty, run) == s;
    InvRun(Empty, run);
  }

  /** No accepted write is lost: at every moment of every run it is in list1_, in list2_ or in a
      finished table; and whenever a reader can run, in list1_, list2_ or a loaded table. */
  lemma NothingLost(s: Store, k: Key)
    requires Reachable(s) && k in s.last
    ensures Holds(s.List1(), k, s.last[k]) || Holds(s.List2(), k, s.last[k]) || OnDisk(s.tables, k, s.last[k])
    ensures s.phase != Refreshing ==>
      Holds(s.List1(), k, s.last[k]) || Holds(s.List2(), k, s.last[k]) || OnDisk(s.loaded, k, s.last[k])
  {
    ReachableInv(s);
  }

  /** The pair that triggered a flush meets an empty memtable, so its clone is stored as it is and the
      truncated time of the clone is never looked at. */
  lemma CloneMeetsEmptyList(s: Store, env: Env)
    requires Reachable(s) && s.phase == Cloning
    ensures s.pending.Some? && s.List1() == map[] && Enabled(s, Clone(env))
    ensures var p, s' := s.pending.value, Do(s, Clone(env));
      if env.memory then s'.List1() == map[p.key := p] && Holds(s'.last, p.key, p) else s'.List1() == map[] && s'.last == s.last
  {
    ReachableInv(s);
  }

  /** After the destructor every accepted write is on disk. */
  lemma ClosedIsDurable(s: Store, k: Key)
    requires Reachable(s) && s.phase == Closed && s.saver.Idle? && k in s.last
    ensures OnDisk(s.tables, k, s.last[k])
  {
    ReachableInv(s);
  }

  // ---------- reading ----------

  /** getNewestPair_: the later one, the second on equal times. */
  function Newest(p: Option<Pair>, best: Option<Pair>): Option<Pair> {
    if p.None? then best
    else if best.None? then p
    else if p.value.created > best.value.created then p
    else best
  }

  /** A disk table is skipped when everything in it is older than what was found already. */
  function ReadDisk(d: Disk, k: Key, best: Option<Pair>): Option<Pair> {
    if best.None? then Lookup(d.data, k)
    else if best.value.created > d.newest then best
    else Newest(Lookup(d.data, k), best)
  }

  function ReadDisks(ds: seq<Disk>, k: Key, best: Option<Pair>): Option<Pair> {
    if ds == [] then best else ReadDisk(ds[|ds| - 1], k, ReadDisks(ds[..|ds| - 1], k, best))
  }

  function Read(s: Store, k: Key): Option<Pair> {
    ReadDisks(s.loaded, k, Newest(Lookup(s.List2(), k), Newest(Lookup(s.List1(), k), None)))
  }

  method GetPair(s: Store, k: Key) returns (best: Option<Pair>)
    ensures best == Read(s, k)
  {
    best := Newest(Lookup(s.List1(), k), None);
    best := Newest(Lookup(s.List2(), k), best);
    ghost var memory := best;
    for i := 0 to |s.loaded|
      invariant best == ReadDisks(s.loaded[..i], k, memory)
    {
      best := ReadDisk(s.loaded[i], k, best);
      assert s.loaded[..i + 1][..i] == s.loaded[..i];
    }
    assert s.loaded[..|s.loaded|] == s.loaded;
  }

  ghost predicate Copy(s: Store, k: Key, p: Pair) {
    Holds(s.List1(), k, p) || Holds(s.List2(), k, p) || OnDisk(s.loaded, k, p)
  }

  predicate Bounded(d: Disk) {
    forall k :: k in d.data ==> d.data[k].created <= d.newest
  }

  ghost predicate BoundInv(s: Store) {
    && (forall d :: d in s.tables ==> Bounded(d))
    && (forall d :: d in s.loaded ==> Bounded(d))
    && (s.saver.Saving? ==> Bounded(s.saver.written))
  }

  lemma BoundStep(s: Store, step: Step)
    requires BoundInv(s) && Enabled(s, step)
    ensures BoundInv(Do(s, step))
  {
    hide Insert;
    hide InsertClone;
    hide Listing;
    hide Bounded;
    if step.Refresh? || step.Reload? {
      assert Listing(step.order, s.tables);
      SameDisks(step.order, s.tables);
    }
    if step.SaveOne? {
      BoundAppend(s.saver.written, step.k, s.At(s.saver.slot)[step.k]);
    }
    BoundNone();
  }

  lemma BoundAppend(d: Disk, k: Key, p: Pair)
    requires Bounded(d)
    ensures Bounded(Append(d, k, p))
  {
  }

  lemma BoundNone()
    ensures Bounded(Disk(map[], 0))
  {
  }

  /** The result is found somewhere, and nothing found anywhere is newer. */
  ghost predicate IsNewest(r: Option<Pair>, ds: seq<Disk>, k: Key, best: Option<Pair>) {
    && (r.None? ==> best.None? && forall d :: d in ds ==> k !in d.data)
    && (r.Some? ==>
         && (best == r || OnDisk(ds, k, r.value))
         && (best.Some? ==> best.value.created <= r.value.created)
         && (best.Some? && best.value.created == r.value.created ==> r == best)
         && (forall d :: d in ds && k in d.data ==> d.data[k].created <= r.value.created))
  }

  lemma {:induction false} ReadDisksNewest(ds: seq<Disk>, k: Key, best: Option<Pair>)
    requires forall d :: d in ds ==> Bounded(d)
    ensures IsNewest(ReadDisks(ds, k, best), ds, k, best)
  {
    if ds != [] {
      var rest, d := ds[..|ds| - 1], ds[|ds| - 1];
      ReadDisksNewest(rest, k, best);
      assert forall e :: e in ds <==> e in rest || e == d;
    }
  }

  /** A read returns a copy of the key that no other copy beats, whatever the table order. */
  lemma ReadNewest(s: Store, k: Key)
    requires forall d :: d in s.loaded ==> Bounded(d)
    ensures Read(s, k).None? ==> forall p :: !Copy(s, k, p)
    ensures Read(s, k).Some? ==> Copy(s, k, Read(s, k).value) && forall p :: Copy(s, k, p) ==> p.created <= Read(s, k).value.created
  {
    ReadDisksNewest(s.loaded, k, Newest(Lookup(s.List2(), k), Newest(Lookup(s.List1(), k), None)));
  }

  // ---------- the read returns the last accepted write ----------

  /** The memtable that took the latest writes; inside flush, before the old one is cleared, that is list2_. */
  function Newer(s: Store): Table {
    if s.phase == Starting || s.phase == Clearing then s.List2() else s.List1()
  }

  function Older(s: Store): Table {
    if s.phase == Starting || s.phase == Clearing then s.List1() else s.List2()
  }

  /** p is q, or an earlier write (with strict: one with a strictly earlier time). */
  predicate Upto(p: Pair, q: Pair, strict: bool) {
    p == q || p.created < q.created || (!strict && p.created == q.created)
  }

  ghost predicate Within(t: Table, last: Table, strict: bool) {
    forall k :: k in t ==> k in last && Upto(t[k], last[k], strict)
  }

  /** The memtables hold last accepted writes; no copy anywhere is later than the last accepted write. */
  ghost predicate TimeInv(s: Store, strict: bool) {
    && (forall k :: k in Newer(s) ==> Holds(s.last, k, Newer(s)[k]))
    && (forall k :: k in Older(s) && k !in Newer(s) ==> Holds(s.last, k, Older(s)[k]))
    && Within(Older(s), s.last, strict)
    && forall d :: d in s.tables ==> Within(d.data, s.last, strict)
  }

  /** The step accepts no write that is older than the last accepted one of its key (with strict: or as old). */
  ghost predicate InOrder(s: Store, step: Step, strict: bool)
    requires Enabled(s, step)
  {
    var s' := Do(s, step);
    forall k :: k in s.last && k in s'.last ==> Upto(s.last[k], s'.last[k], strict)
  }

  ghost predicate Ordered(s: Store, run: seq<Step>, strict: bool)
    requires Legal(s, run)
    decreases |run|
  {
    run == [] || (InOrder(s, run[0], strict) && Ordered(Do(s, run[0]), run[1..], strict))
  }

  lemma WithinMonotone(t: Table, m: Table, m': Table, strict: bool)
    requires Within(t, m, strict)
    requires forall k :: k in m ==> k in m' && Upto(m[k], m'[k], strict)
    ensures Within(t, m', strict)
  {
  }

  /** An accepted write of k into list1_. */
  lemma TimeInsert(s: Store, r: (Status, Table), k: Key, strict: bool)
    requires TimeInv(s, strict) && s.phase == Ready
    requires forall j :: j != k ==> (j in r.1 <==> j in s.List1()) && (j in r.1 ==> r.1[j] == s.List1()[j])
    requires Accepted(r.0) ==> k in r.1
    requires !Accepted(r.0) ==> r.1 == s.List1()
    requires var s' := Store1(s, r, k); k in s.last && k in s'.last ==> Upto(s.last[k], s'.last[k], strict)
    ensures TimeInv(Store1(s, r, k), strict)
  {
    var s' := Store1(s, r, k);
    assert Newer(s) == s.List1() && Older(s) == s.List2();
    assert s'.tables == s.tables && forall j :: j in s.last ==> j in s'.last && Upto(s.last[j], s'.last[j], strict);
    hide Upto;
    hide Store1;
    hide Within;
    WithinMonotone(s.List2(), s.last, s'.last, strict);
    forall d | d in s.tables ensures Within(d.data, s'.last, strict) {
      WithinMonotone(d.data, s.last, s'.last, strict);
    }
    HoldsInsert(s, r, k);
  }

  lemma HoldsInsert(s: Store, r: (Status, Table), k: Key)
    requires s.phase == Ready
    requires forall j :: j in s.List1() ==> Holds(s.last, j, s.List1()[j])
    requires forall j :: j in s.List2() && j !in s.List1() ==> Holds(s.last, j, s.List2()[j])
    requires forall j :: j != k ==> (j in r.1 <==> j in s.List1()) && (j in r.1 ==> r.1[j] == s.List1()[j])
    requires Accepted(r.0) ==> k in r.1
    requires !Accepted(r.0) ==> r.1 == s.List1()
    ensures var s' := Store1(s, r, k);
      && Newer(s') == r.1 && Older(s') == s.List2()
      && (forall j :: j in r.1 ==> Holds(s'.last, j, r.1[j]))
      && forall j :: j in s.List2() && j !in r.1 ==> Holds(s'.last, j, s.List2()[j])
  {
  }

  lemma TimeClear(s: Store, strict: bool)
    requires Inv(s) && TimeInv(s, strict) && s.phase == Clearing
    ensures TimeInv(Do(s, Clear), strict)
  {
    var s' := Do(s, Clear);
    assert Newer(s') == map[] && Older(s') == Newer(s) && s'.tables == s.tables && s'.last == s.last;
  }

  lemma TimeErase(s: Store, k: Key, strict: bool)
    requires Inv(s) && TimeInv(s, strict) && Enabled(s, EraseNow(k))
    ensures TimeInv(Do(s, EraseNow(k)), strict)
  {
    var s' := Do(s, EraseNow(k));
    assert Newer(s') == Newer(s) - {k} && Older(s') == map[] && s'.tables == [];
  }

  lemma TimeSaved(s: Store, strict: bool)
    requires Inv(s) && TimeInv(s, strict) && Enabled(s, SaveDone)
    ensures TimeInv(Do(s, SaveDone), strict)
  {
    hide Within;
    hide DiskInv;
    hide KeptInv;
    hide Do;
    hide Enabled;
    ListsWithin(s, strict);
    DoSaved(s);
    WithinPart(s.saver.written.data, s.At(s.saver.slot), s.last, strict);
  }

  lemma DoSaved(s: Store)
    requires Enabled(s, SaveDone)
    ensures s.saver.Saving?
    ensures var s' := Do(s, SaveDone);
      s'.last == s.last && s'.tables == s.tables + [s.saver.written] && Newer(s') == Newer(s) && Older(s') == Older(s)
  {
  }

  lemma ListsWithin(s: Store, strict: bool)
    requires TimeInv(s, strict)
    ensures Within(s.List1(), s.last, strict) && Within(s.List2(), s.last, strict)
  {
    assert Within(Newer(s), s.last, strict);
  }

  lemma WithinPart(t: Table, u: Table, last: Table, strict: bool)
    requires (forall k :: k in t ==> Holds(u, k, t[k])) && Within(u, last, strict)
    ensures Within(t, last, strict)
  {
  }

  lemma TimeInsertInto(s: Store, f: Factory, env: Env, strict: bool)
    requires TimeInv(s, strict) && Enabled(s, InsertInto(f, env)) && InOrder(s, InsertInto(f, env), strict)
    ensures TimeInv(Do(s, InsertInto(f, env)), strict)
  {
    hide TimeInv;
    hide Insert;
    InsertChanges(s.List1(), f, env);
    TimeInsert(s, Insert(s.List1(), f, env), f.key, strict);
  }

  lemma TimeEraseMark(s: Store, k: Key, env: Env, strict: bool)
    requires TimeInv(s, strict) && Enabled(s, EraseMark(k, env)) && InOrder(s, EraseMark(k, env), strict)
    ensures TimeInv(Do(s, EraseMark(k, env)), strict)
  {
    hide TimeInv;
    hide Insert;
    InsertChanges(s.List1(), Tombstone(k, 0), env);
    TimeInsert(s, Insert(s.List1(), Tombstone(k, 0), env), k, strict);
  }

  lemma TimeClone(s: Store, env: Env, strict: bool)
    requires TimeInv(s, strict) && Enabled(s, Clone(env)) && InOrder(s, Clone(env), strict)
    ensures TimeInv(Do(s, Clone(env)), strict)
  {
    hide TimeInv;
    hide InsertClone;
    var p, ready := s.pending.value, s.(pending := None, phase := Ready);
    CloneChanges(s.List1(), p, env);
    TimeSame(s, ready, strict);
    TimeInsert(ready, InsertClone(s.List1(), p, env), p.key, strict);
  }

  lemma TimeSame(s: Store, s': Store, strict: bool)
    requires TimeInv(s, strict)
    requires Newer(s') == Newer(s) && Older(s') == Older(s) && s'.tables == s.tables && s'.last == s.last
    ensures TimeInv(s', strict)
  {
  }

  predicate Quiet(step: Step) {
    !step.InsertInto? && !step.EraseMark? && !step.Clone? && !step.EraseNow? && !step.Clear? && !step.SaveDone?
  }

  lemma TimeQuiet(s: Store, step: Step, strict: bool)
    requires TimeInv(s, strict) && Enabled(s, step) && Quiet(step)
    ensures TimeInv(Do(s, step), strict)
  {
    hide TimeInv;
    TimeSame(s, Do(s, step), strict);
  }

  lemma TimeStep(s: Store, step: Step, strict: bool)
    requires Inv(s) && TimeInv(s, strict) && Enabled(s, step) && InOrder(s, step, strict)
    ensures TimeInv(Do(s, step), strict)
  {
    hide Inv;
    hide TimeInv;
    hide InOrder;
    hide Do;
    match step
    case InsertInto(f, env) => TimeInsertInto(s, f, env, strict);
    case EraseMark(k, env) => TimeEraseMark(s, k, env, strict);
    case Clone(env) => TimeClone(s, env, strict);
    case EraseNow(k) => TimeErase(s, k, strict);
    case Clear => TimeClear(s, strict);
    case SaveDone => TimeSaved(s, strict);
    case _ => TimeQuiet(s, step, strict);
  }

  lemma {:induction false} TimeRun(s: Store, run: seq<Step>, strict: bool)
    requires Inv(s) && BoundInv(s) && TimeInv(s, strict) && Legal(s, run) && Ordered(s, run, strict)
    ensures Inv(Exec(s, run)) && BoundInv(Exec(s, run)) && TimeInv(Exec(s, run), strict)
    decreases |run|
  {
    if run != [] {
      InvStep(s, run[0]);
      BoundStep(s, run[0]);
      TimeStep(s, run[0], strict);
      hide Inv;
      hide BoundInv;
      hide TimeInv;
      TimeRun(Do(s, run[0]), run[1..], strict);
    }
  }

  /** With creation times that never decrease, a read has the time of the last accepted write and is that
      write while a memtable holds it; with increasing times it always is that write. */
  lemma ReadsLastWrite(run: seq<Step>, k: Key, strict: bool)
    requires Legal(Empty, run) && Ordered(Empty, run, strict) && Exec(Empty, run).phase == Ready
    ensures var s := Exec(Empty, run);
      if k !in s.last then Read(s, k) == None else
        && Read(s, k).Some? && Read(s, k).value.created == s.last[k].created
        && (strict || k in s.List1() || k in s.List2() ==> Read(s, k) == Some(s.last[k]))
  {
    TimeRun(Empty, run, strict);
    ReadsLast(Exec(Empty, run), k, strict);
  }

  lemma CopyUpto(s: Store, k: Key, p: Pair, strict: bool)
    requires Inv(s) && TimeInv(s, strict) && s.phase == Ready && Copy(s, k, p)
    ensures k in s.last && Upto(p, s.last[k], strict)
  {
    assert Newer(s) == s.List1() && Older(s) == s.List2();
    if !Holds(s.List1(), k, p) && !Holds(s.List2(), k, p) {
      var d :| d in s.loaded && Holds(d.data, k, p);
      assert d in s.tables;
    }
    hide SaverInv;
    hide KeptInv;
  }

  lemma ReadsLast(s: Store, k: Key, strict: bool)
    requires Inv(s) && BoundInv(s) && TimeInv(s, strict) && s.phase == Ready
    ensures if k !in s.last then Read(s, k) == None else
        && Read(s, k).Some? && Read(s, k).value.created == s.last[k].created
        && (strict || k in s.List1() || k in s.List2() ==> Read(s, k) == Some(s.last[k]))
  {
    var r := Read(s, k);
    ReadNewest(s, k);
    if r.Some? {
      CopyUpto(s, k, r.value, strict);
    }
    if k in s.last {
      assert Copy(s, k, s.last[k]);
      if k in s.List1() || k in s.List2() {
        var best := Newest(Lookup(s.List2(), k), Newest(Lookup(s.List1(), k), None));
        assert best == Some(s.last[k]);
        ReadDisksNewest(s.loaded, k, best);
      }
    }
  }

  /** Among the tables, p is met before every other pair of the key with the same time. */
  ghost predicate MetFirst(ds: seq<Disk>, k: Key, p: Pair) {
    exists i :: 0 <= i < |ds| && Holds(ds[i].data, k, p) && Earlier(ds[..i], k, p)
  }

  ghost predicate Earlier(ds: seq<Disk>, k: Key, p: Pair) {
    forall d :: d in ds && k in d.data ==> d.data[k].created < p.created
  }

  lemma {:induction false} FirstWins(ds: seq<Disk>, k: Key, p: Pair)
    requires forall d :: d in ds ==> Bounded(d)
    requires forall d :: d in ds && k in d.data ==> d.data[k].created <= p.created
    ensures ReadDisks(ds, k, None) == Some(p) <==> MetFirst(ds, k, p)
  {
    if ds != [] {
      var rest, d := ds[..|ds| - 1], ds[|ds| - 1];
      FirstWins(rest, k, p);
      ReadDisksNewest(rest, k, None);
      MetSnoc(ds, k, p);
      assert d in ds && Bounded(d) && forall e :: e in rest ==> e in ds;
      var r := ReadDisks(rest, k, None);
      assert Earlier(rest, k, p) <==> r.None? || r.value.created < p.created by {
        if r.Some? {
          assert OnDisk(rest, k, r.value);
        }
      }
      assert ReadDisks(ds, k, None) == ReadDisk(d, k, ReadDisks(rest, k, None));
      hide MetFirst;
      hide ReadDisks;
    }
  }

  lemma MetSnoc(ds: seq<Disk>, k: Key, p: Pair)
    requires ds != []
    ensures var rest, d := ds[..|ds| - 1], ds[|ds| - 1];
      MetFirst(ds, k, p) <==> MetFirst(rest, k, p) || (Holds(d.data, k, p) && Earlier(rest, k, p))
  {
    var n := |ds| - 1;
    var rest := ds[..n];
    if MetFirst(ds, k, p) {
      var i :| 0 <= i < |ds| && Holds(ds[i].data, k, p) && Earlier(ds[..i], k, p);
      if i < n {
        assert rest[..i] == ds[..i] && rest[i] == ds[i];
      }
    }
    if MetFirst(rest, k, p) {
      var i :| 0 <= i < |rest| && Holds(rest[i].data, k, p) && Earlier(rest[..i], k, p);
      assert rest[..i] == ds[..i] && rest[i] == ds[i];
    }
  }

  /** With creation times that never decrease, the read is the last accepted write exactly when a memtable
      holds the key or the loader lists that write before every other of the same time. */
  lemma ReadsLastExactly(run: seq<Step>, k: Key)
    requires Legal(Empty, run) && Ordered(Empty, run, false) && Exec(Empty, run).phase == Ready && k in Exec(Empty, run).last
    ensures var s := Exec(Empty, run);
      Read(s, k) == Some(s.last[k]) <==> k in s.List1() || k in s.List2() || MetFirst(s.loaded, k, s.last[k])
  {
    TimeRun(Empty, run, false);
    hide Legal;
    hide Ordered;
    ReadsLastIff(Exec(Empty, run), k);
  }

  lemma ReadsLastIff(s: Store, k: Key)
    requires Inv(s) && BoundInv(s) && TimeInv(s, false) && s.phase == Ready && k in s.last
    ensures Read(s, k) == Some(s.last[k]) <==> k in s.List1() || k in s.List2() || MetFirst(s.loaded, k, s.last[k])
  {
    ReadsLast(s, k, false);
    if k !in s.List1() && k !in s.List2() {
      forall d | d in s.loaded && k in d.data ensures d.data[k].created <= s.last[k].created {
        assert OnDisk(s.loaded, k, d.data[k]);
        CopyUpto(s, k, d.data[k], false);
      }
      FirstWins(s.loaded, k, s.last[k]);
    }
  }

  // ---------- equal times ----------

  lemma {:induction false} RunAppend(s: Store, x: seq<Step>, y: seq<Step>)
    requires Legal(s, x) && Legal(Exec(s, x), y) && Ordered(s, x, false) && Ordered(Exec(s, x), y, false)
    ensures Legal(s, x + y) && Exec(s, x + y) == Exec(Exec(s, x), y) && Ordered(s, x + y, false)
    decreases |x|
  {
    if x == [] {
      assert x + y == y;
    } else {
      assert (x + y)[0] == x[0] && (x + y)[1..] == x[1..] + y;
      hide Do;
      RunAppend(Do(s, x[0]), x[1..], y);
    }
  }

  lemma RunStep(s: Store, step: Step, rest: seq<Step>)
    requires Enabled(s, step) && Do(s, step).last == s.last && Legal(Do(s, step), rest) && Ordered(Do(s, step), rest, false)
    ensures Legal(s, [step] + rest) && Ordered(s, [step] + rest, false)
    ensures Exec(s, [step] + rest) == Exec(Do(s, step), rest)
  {
    assert ([step] + rest)[1..] == rest;
  }

  function FlushHead(): seq<Step> { [Flush] + ([Join] + ([Swap] + ([Start] + []))) }

  function FlushSave(k: Key): seq<Step> { [SaveOne(k)] + ([SaveDone] + []) }

  function FlushTail(order: seq<Disk>, reload: bool): seq<Step> {
    if reload then [Clear] + ([Refresh(order)] + ([Bump] + [])) else [Clear] + ([Bump] + [])
  }

  /** A whole flush of a memtable with the single key k. */
  function FlushRun(k: Key, order: seq<Disk>, reload: bool): seq<Step> {
    FlushHead() + FlushSave(k) + FlushTail(order, reload)
  }

  function Headed(s: Store): Store {
    s.(front := !s.front, saver := Saving(s.front, s.List1(), Disk(map[], 0)), phase := Clearing)
  }

  lemma RunHead(s: Store)
    requires s.phase == Ready && s.saver == Idle && s.List1() != map[]
    ensures Legal(s, FlushHead()) && Ordered(s, FlushHead(), false) && Exec(s, FlushHead()) == Headed(s)
  {
    hide Legal;
    hide Ordered;
    hide Exec;
    var s1 := Do(s, Flush);
    var s2 := Do(s1, Join);
    var s3 := Do(s2, Swap);
    RunNil(Headed(s));
    assert Do(s3, Start) == Headed(s);
    RunStep(s3, Start, []);
    RunStep(s2, Swap, [Start] + []);
    RunStep(s1, Join, [Swap] + ([Start] + []));
    RunStep(s, Flush, [Join] + ([Swap] + ([Start] + [])));
  }

  lemma RunSave(s: Store, k: Key, p: Pair)
    requires s.saver == Saving(!s.front, s.List2(), Disk(map[], 0)) && s.List2() == map[k := p]
    ensures Legal(s, FlushSave(k)) && Ordered(s, FlushSave(k), false)
    ensures Exec(s, FlushSave(k)) == s.(saver := Idle, tables := s.tables + [Disk(map[k := p], p.created)])
  {
    hide Legal;
    hide Ordered;
    hide Exec;
    var s1 := Do(s, SaveOne(k));
    assert s1.saver.written == Disk(map[k := p], p.created);
    RunNil(Do(s1, SaveDone));
    RunStep(s1, SaveDone, []);
    RunStep(s, SaveOne(k), [SaveDone] + []);
  }

  lemma RunTail(s: Store, order: seq<Disk>)
    requires s.phase == Clearing && s.pending == None && Listing(order, s.tables)
    ensures var reload := s.List1() != map[];
      && Legal(s, FlushTail(order, reload)) && Ordered(s, FlushTail(order, reload), false)
      && Exec(s, FlushTail(order, reload)) ==
         s.With1(map[]).(phase := Ready, version := s.version + 1, loaded := if reload then order else s.loaded)
  {
    if s.List1() != map[] {
      RunReload(s, order);
    } else {
      var s1 := Do(s, Clear);
      RunNil(Do(s1, Bump));
      hide Legal;
      hide Ordered;
      hide Exec;
      hide Listing;
      RunStep(s1, Bump, []);
      RunStep(s, Clear, [Bump] + []);
    }
  }

  lemma RunReload(s: Store, order: seq<Disk>)
    requires s.phase == Clearing && s.pending == None && Listing(order, s.tables) && s.List1() != map[]
    ensures Legal(s, FlushTail(order, true)) && Ordered(s, FlushTail(order, true), false)
    ensures Exec(s, FlushTail(order, true)) == s.With1(map[]).(phase := Ready, version := s.version + 1, loaded := order)
  {
    hide Legal;
    hide Ordered;
    hide Exec;
    hide Listing;
    var s1 := Do(s, Clear);
    assert s1 == s.With1(map[]).(phase := Refreshing);
    var s2 := Do(s1, Refresh(order));
    assert s2 == s1.(loaded := order, phase := Bumping);
    RunNil(Do(s2, Bump));
    RunStep(s2, Bump, []);
    RunStep(s1, Refresh(order), [Bump] + []);
    RunStep(s, Clear, [Refresh(order)] + ([Bump] + []));
  }

  function Flushed(s: Store, k: Key, p: Pair, order: seq<Disk>, reload: bool): Store {
    s.(front := !s.front, a := if s.front then s.a else map[], b := if s.front then map[] else s.b,
       tables := s.tables + [Disk(map[k := p], p.created)], loaded := if reload then order else s.loaded, version := s.version + 1)
  }

  lemma WholeFlush(s: Store, k: Key, p: Pair, order: seq<Disk>)
    requires s.phase == Ready && s.saver == Idle && s.pending == None && s.List1() == map[k := p]
    requires Listing(order, s.tables + [Disk(map[k := p], p.created)])
    ensures var reload := s.List2() != map[];
      && Legal(s, FlushRun(k, order, reload)) && Ordered(s, FlushRun(k, order, reload), false)
      && Exec(s, FlushRun(k, order, reload)) == Flushed(s, k, p, order, reload)
  {
    assert k in s.List1();
    var reload := s.List2() != map[];
    hide Legal;
    hide Ordered;
    hide Exec;
    hide Listing;
    hide FlushHead;
    hide FlushSave;
    hide FlushTail;
    RunHead(s);
    var s1 := Headed(s);
    RunSave(s1, k, p);
    RunAppend(s, FlushHead(), FlushSave(k));
    var s2 := s1.(saver := Idle, tables := s1.tables + [Disk(map[k := p], p.created)]);
    RunTail(s2, order);
    RunAppend(s, FlushHead() + FlushSave(k), FlushTail(order, reload));
  }

  lemma RunNil(s: Store)
    ensures Legal(s, []) && Exec(s, []) == s && Ordered(s, [], false)
  {
  }

  /** Equal times can lose once both writes are on disk, where the order of the tables decides: a key
      is written twice with one creation time, each time followed by a flush, and a third flush empties
      the memtable that still holds the second write. */
  lemma TieLosesWrite(k: Key, j: Key) returns (run: seq<Step>)
    requires 0 < |k| <= MAX_KEY_SIZE && 0 < |j| <= MAX_KEY_SIZE && j != k
    ensures Legal(Empty, run) && Ordered(Empty, run, false) && Exec(Empty, run).phase == Ready
    ensures var s := Exec(Empty, run); k in s.last && Read(s, k).Some? && Read(s, k) != Some(s.last[k])
  {
    var f1, f2, f3 := Normal(k, [1], 0, 5), Normal(k, [2], 0, 5), Normal(j, [3], 0, 5);
    var s;
    s, run := TieWrites(f1, f2, f3);
    TieRead(s, k, TieDisk(f1), TieDisk(f2), TieDisk(f3));
  }

  function TieDisk(f: Factory): Disk {
    Disk(map[f.key := f.Create(0)], f.Create(0).created)
  }

  lemma TieWrites(f1: Factory, f2: Factory, f3: Factory) returns (s: Store, run: seq<Step>)
    requires f1.IsValid() && f2.IsValid() && f3.IsValid() && f1.created == f2.created == f3.created == 5 && f1.key == f2.key != f3.key
    ensures Tied(s, run) && s.List2() == map[f3.key := f3.Create(0)]
    ensures s.loaded == [TieDisk(f1), TieDisk(f2), TieDisk(f3)] && Holds(s.last, f1.key, f2.Create(0))
  {
    RunNil(Empty);
    var s1, run1 := TieWrite(Empty, [], f1);
    hide Tied;
    var s2, run2 := TieWrite(s1, run1, f2);
    s, run := TieWrite(s2, run2, f3);
    assert f1.key in s1.List2() && f1.key in s2.List2();
    assert s.loaded == [TieDisk(f1), TieDisk(f2), TieDisk(f3)];
  }

  /** The run ends between two calls with everything flushed, and every write so far had one creation time. */
  ghost predicate Tied(s: Store, run: seq<Step>) {
    && Legal(Empty, run) && Ordered(Empty, run, false) && Exec(Empty, run) == s
    && s.phase == Ready && s.saver == Idle && s.pending == None && s.List1() == map[]
    && (forall i :: 0 <= i < |s.tables| ==> s.tables[i].newest == 5 * 0x1_0000_0000)
    && (forall k :: k in s.last ==> s.last[k].created == 5 * 0x1_0000_0000)
  }

  /** One more write into an empty memtable and a flush after it. */
  lemma TieWrite(s: Store, run: seq<Step>, f: Factory) returns (s': Store, run': seq<Step>)
    requires Tied(s, run)
    requires f.IsValid() && f.created == 5
    ensures Tied(s', run') && s'.tables == s.tables + [TieDisk(f)] && (s.List2() != map[] ==> s'.loaded == s'.tables)
    ensures s'.List2() == map[f.key := f.Create(0)] && s'.last == s.last[f.key := f.Create(0)]
  {
    hide Listing;
    hide Legal;
    hide Ordered;
    hide Exec;
    hide FlushRun;
    var insert := [InsertInto(f, Env(0, false, true))];
    var order := s.tables + [TieDisk(f)];
    TieListings(order);
    TieInsert(s, f);
    var s1 := Exec(s, insert);
    RunAppend(Empty, run, insert);
    WholeFlush(s1, f.key, f.Create(0), order);
    run' := run + insert + FlushRun(f.key, order, s1.List2() != map[]);
    RunAppend(Empty, run + insert, FlushRun(f.key, order, s1.List2() != map[]));
    s' := Exec(Empty, run');
  }

  lemma TieInsert(s: Store, f: Factory)
    requires s.phase == Ready && s.List1() == map[] && f.IsValid() && f.created == 5
    requires forall k :: k in s.last ==> s.last[k].created == 5 * 0x1_0000_0000
    ensures var insert, p := [InsertInto(f, Env(0, false, true))], f.Create(0);
      && Legal(s, insert) && Ordered(s, insert, false)
      && Exec(s, insert) == s.With1(map[f.key := p]).(last := s.last[f.key := p])
  {
    var step, p := InsertInto(f, Env(0, false, true)), f.Create(0);
    var s1 := Do(s, step);
    assert s1 == s.With1(map[f.key := p]).(last := s.last[f.key := p]);
    RunNil(s1);
    assert [step][1..] == [];
  }

  lemma TieRead(s: Store, k: Key, d1: Disk, d2: Disk, d3: Disk)
    requires k !in s.List1() && k !in s.List2() && s.loaded == [d1, d2, d3]
    requires k in d1.data && k in d2.data && k !in d3.data && d1.data[k].created == d2.data[k].created
    ensures Read(s, k) == Some(d1.data[k])
  {
    assert s.loaded[..2] == [d1, d2] && s.loaded[..2][..1] == [d1] && s.loaded[..2][..1][..0] == [];
    assert ReadDisks([d1], k, None) == Some(d1.data[k]) by {
      assert [d1][..0] == [];
    }
    assert ReadDisks([d1, d2], k, None) == Some(d1.data[k]);
  }

  lemma TieListings(x: seq<Disk>)
    requires forall i, j :: 0 <= i < j < |x| ==> x[i].newest == x[j].newest
    ensures Listing(x, x)
  {
  }
}
