/** What was asked of the concurrent flush list, kept beside its runs: every request is taken from the step that
    submits it, and compared with what the lists and the tables hold. */
module FlushHistory {
  import opened Keys
  import opened Pairs
  import opened FlushProtocol

  datatype Request = Request(f: Factory, now: nat)

  /** The pair holds what was asked for, in new memory or in that of an older pair. */
  ghost predicate Answers(p: Pair, r: Request) {
    exists was :: Carries(p, r.f, r.now, was)
  }

  /** The last accepted request of each key, and the one that waits for a flush to end. */
  datatype Story = Story(asked: map<Key, Request>, waiting: Option<Request>)

  const Begin: Story := Story(map[], None)

  function Tell(t: Story, s: Store, step: Step): Story
    requires Enabled(s, step)
  {
    match step
    case InsertInto(f, env) => if Accepted(Insert(s.List1(), f, env).0) then t.(asked := t.asked[f.key := Request(f, env.now)]) else t
    case InsertFlushing(f, env, _) => t.(waiting := Some(Request(f, env.now)))
    case EraseNow(k) => t.(asked := t.asked - {k})
    case EraseMark(k, env) =>
      if Accepted(Insert(s.List1(), Tombstone(k, 0), env).0) then t.(asked := t.asked[k := Request(Tombstone(k, 0), env.now)]) else t
    case Clone(env) =>
      if t.waiting.Some? && env.memory then Story(t.asked[t.waiting.value.f.key := t.waiting.value], None) else t.(waiting := None)
    case _ => t
  }

  function TellRun(t: Story, s: Store, run: seq<Step>): Story
    requires Legal(s, run)
    decreases |run|
  {
    if run == [] then t else TellRun(Tell(t, s, run[0]), Do(s, run[0]), run[1..])
  }

  // ---------- the story is true ----------

  predicate Keyed(m: Table) { forall k :: k in m ==> m[k].key == k }

  ghost predicate Matches(asked: map<Key, Request>, last: Table) {
    asked.Keys == last.Keys && forall k :: k in last ==> asked[k].f.key == k && Answers(last[k], asked[k])
  }

  ghost predicate Waits(w: Option<Request>, p: Option<Pair>) {
    (w.Some? <==> p.Some?) && (w.Some? ==> Carries(p.value, w.value.f, w.value.now, None))
  }

  /** The history of the state is the story, and nothing waits between two calls. */
  ghost predicate Tells(t: Story, s: Store) {
    && Keyed(s.a) && Keyed(s.b) && Matches(t.asked, s.last) && Waits(t.waiting, s.pending)
    && (s.phase in {Ready, Closing, Closed} ==> t.waiting.None?)
  }

  lemma CreateCarries(f: Factory, now: nat)
    ensures Carries(f.Create(now), f, now, None)
  {
  }

  /** A step that puts the answer r to f into list1_. */
  lemma TellStored(t: Story, s: Store, r: (Status, Table), f: Factory, now: nat)
    requires Tells(t, s) && s.phase == Ready && Keyed(r.1)
    requires !Accepted(r.0) ==> r.1 == s.List1()
    requires Accepted(r.0) ==> f.key in r.1 && Answers(r.1[f.key], Request(f, now))
    ensures Tells(if Accepted(r.0) then t.(asked := t.asked[f.key := Request(f, now)]) else t, Store1(s, r, f.key))
  {
    hide Answers;
  }

  lemma InsertAnswers(m: Table, f: Factory, env: Env)
    requires Keyed(m)
    ensures var r := Insert(m, f, env);
      && Keyed(r.1) && (!Accepted(r.0) ==> r.1 == m)
      && (Accepted(r.0) ==> f.key in r.1 && Answers(r.1[f.key], Request(f, env.now)))
  {
    InsertRule(m, f, env);
    hide Insert;
    hide Carries;
    var r := Insert(m, f, env);
    if Accepted(r.0) {
      var was := if r.0 == UpdatedInPlace then Some(m[f.key]) else None;
      assert Carries(r.1[f.key], f, env.now, was);
      CarriesKey(r.1[f.key], f, env.now, was);
      forall k | k in r.1 ensures r.1[k].key == k {
        assert k != f.key ==> Lookup(r.1, k) == Lookup(m, k);
      }
    }
  }

  lemma CarriesKey(p: Pair, f: Factory, now: nat, was: Option<Pair>)
    requires Carries(p, f, now, was)
    ensures p.key == f.key && p.created == (if f.created == 0 then now else f.created * 0x1_0000_0000)
  {
  }

  lemma TellClone(t: Story, s: Store, env: Env)
    requires Inv(s) && Tells(t, s) && Enabled(s, Clone(env))
    ensures Tells(Tell(t, s, Clone(env)), Do(s, Clone(env)))
  {
    hide Answers;
    hide Carries;
    hide KeptInv;
    hide SaverInv;
    assert s.List1() == map[];
    var w := t.waiting.value;
    CarriesKey(s.pending.value, w.f, w.now, None);
    AnswersNew(s.pending.value, w);
  }

  lemma AnswersNew(p: Pair, r: Request)
    requires Carries(p, r.f, r.now, None)
    ensures Answers(p, r)
  {
  }

  predicate Plainly(step: Step) {
    !step.InsertInto? && !step.InsertFlushing? && !step.EraseNow? && !step.EraseMark? && !step.Clone?
  }

  lemma TellPlain(t: Story, s: Store, step: Step)
    requires Inv(s) && Tells(t, s) && Enabled(s, step) && Plainly(step)
    ensures Tells(Tell(t, s, step), Do(s, step))
  {
    hide Insert;
    hide InsertClone;
    hide Listing;
    hide Matches;
    hide Carries;
    hide KeptInv;
    hide SaverInv;
  }

  lemma TellStep(t: Story, s: Store, step: Step)
    requires Inv(s) && Tells(t, s) && Enabled(s, step)
    ensures Tells(Tell(t, s, step), Do(s, step))
  {
    hide Inv;
    hide Insert;
    match step
    case InsertInto(f, env) => InsertAnswers(s.List1(), f, env); TellStored(t, s, Insert(s.List1(), f, env), f, env.now);
    case EraseMark(k, env) =>
      InsertAnswers(s.List1(), Tombstone(k, 0), env);
      TellStored(t, s, Insert(s.List1(), Tombstone(k, 0), env), Tombstone(k, 0), env.now);
    case InsertFlushing(f, env, _) => CreateCarries(f, env.now);
    case EraseNow(k) =>
    case Clone(env) => TellClone(t, s, env);
    case _ => TellPlain(t, s, step);
  }

  lemma {:induction false} TellRunTrue(t: Story, s: Store, run: seq<Step>)
    requires Inv(s) && Tells(t, s) && Legal(s, run)
    ensures Tells(TellRun(t, s, run), Exec(s, run))
    decreases |run|
  {
    if run != [] {
      InvStep(s, run[0]);
      TellStep(t, s, run[0]);
      hide Inv;
      hide Tells;
      hide Tell;
      hide Do;
      TellRunTrue(Tell(t, s, run[0]), Do(s, run[0]), run[1..]);
    }
  }

  /** Over every run the last accepted write of a key holds what the last accepted request asked for: its value,
      its expiry and its stamp. */
  lemma StoryTrue(run: seq<Step>)
    requires Legal(Empty, run)
    ensures Tells(TellRun(Begin, Empty, run), Exec(Empty, run))
  {
    TellRunTrue(Begin, Empty, run);
  }

  /** So on ordered runs a read returns what was asked for last. */
  lemma ReadsRequest(run: seq<Step>, k: Key, strict: bool)
    requires Legal(Empty, run) && Ordered(Empty, run, strict) && Exec(Empty, run).phase == Ready
    ensures var t, s := TellRun(Begin, Empty, run), Exec(Empty, run);
      if k !in t.asked then Read(s, k) == None else
        && Read(s, k).Some?
        && Read(s, k).value.created == (if t.asked[k].f.created == 0 then t.asked[k].now else t.asked[k].f.created * 0x1_0000_0000)
        && (strict || k in s.List1() || k in s.List2() ==> Answers(Read(s, k).value, t.asked[k]))
  {
    StoryTrue(run);
    ReadsLastWrite(run, k, strict);
    var t, s := TellRun(Begin, Empty, run), Exec(Empty, run);
    hide Read;
    hide Exec;
    hide TellRun;
    hide Legal;
    hide Ordered;
    if k in t.asked {
      var was :| Carries(s.last[k], t.asked[k].f, t.asked[k].now, was);
      CarriesKey(s.last[k], t.asked[k].f, t.asked[k].now, was);
    }
  }

  // ---------- what a flush does ----------

  /** The run is inside one call: it is over when the phase is Ready again. */
  predicate Inside(s: Store, run: seq<Step>)
    requires Legal(s, run)
    decreases |run|
  {
    if run == [] then s.phase == Ready else s.phase != Ready && Inside(Do(s, run[0]), run[1..])
  }

  /** How far the flush that began in s0 has come: the lists change places, the one in front is emptied, and readers
      see the table that it was saved to. */
  ghost predicate Flushing(s0: Store, s: Store) {
    && s.last == s0.last
    && match s.phase
       case Joining | Swapping => s.front == s0.front && s.a == s0.a && s.b == s0.b && s.version == s0.version
       case Starting | Clearing => s.front == !s0.front && s.a == s0.a && s.b == s0.b && s.version == s0.version
       case Refreshing => Exchanged(s0, s) && s.version == s0.version && Saved(s0.List2(), s.tables)
       case Bumping => Exchanged(s0, s) && s.version == s0.version && Saved(s0.List2(), s.loaded)
       case Cloning => Exchanged(s0, s) && s.version == s0.version + 1 && Saved(s0.List2(), s.loaded)
       case Ready => Exchanged(s0, s) && s.version == s0.version + 1 && Saved(s0.List2(), s.loaded)
       case _ => false
  }

  predicate Exchanged(s0: Store, s: Store) {
    s.front == !s0.front && s.List1() == map[] && s.List2() == s0.List1()
  }

  lemma FlushingStep(s0: Store, s: Store, step: Step)
    requires Inv(s) && Flushing(s0, s) && s.phase != Ready && Enabled(s, step) && !step.Clone?
    ensures Flushing(s0, Do(s, step)) && Do(s, step).pending == s.pending
  {
    hide Insert;
    hide InsertClone;
    hide KeptInv;
    hide SaverInv;
    hide Saved;
    if Saved(s0.List2(), s.tables) {
      SavedMore(s0.List2(), s, step);
    }
    SavedNone(s.tables);
    SavedNone(s.loaded);
    if step.Refresh? {
      assert Listing(step.order, s.tables);
      SameDisks(step.order, s.tables);
      SavedSame(s0.List2(), s.tables, step.order);
    }
    hide Listing;
  }

  lemma SavedMore(m: Table, s: Store, step: Step)
    requires Saved(m, s.tables) && Enabled(s, step)
    ensures Saved(m, Do(s, step).tables)
  {
    hide Insert;
    hide InsertClone;
    hide Listing;
    if m != map[] {
      var d :| d in s.tables && d.data == m;
      assert d in Do(s, step).tables;
    }
  }

  lemma SavedNone(tables: seq<Disk>)
    ensures Saved(map[], tables)
  {
  }

  lemma SavedSame(m: Table, x: seq<Disk>, y: seq<Disk>)
    requires Saved(m, x) && forall d :: d in y <==> d in x
    ensures Saved(m, y)
  {
  }

  /** The end of a flush that began in s0: what was in front is list2_, list1_ is empty but for the pair that waited,
      the version has moved, and readers see what list2_ held before. */
  ghost predicate Flushed(s0: Store, p: Option<Pair>, last: Step, s: Store) {
    && s.phase == Ready && s.pending == None && s.version == s0.version + 1
    && s.front == !s0.front && s.List2() == s0.List1() && Saved(s0.List2(), s.loaded)
    && (p.Some? ==> last.Clone?)
    && (if p.Some? && last.Clone? && last.env.memory then
          s.List1() == map[p.value.key := p.value] && s.last == s0.last[p.value.key := p.value]
        else s.List1() == map[] && s.last == s0.last)
  }

  lemma FlushedClone(s0: Store, s: Store, env: Env)
    requires Inv(s) && Flushing(s0, s) && Enabled(s, Clone(env))
    ensures Flushed(s0, s.pending, Clone(env), Do(s, Clone(env)))
  {
    hide Inv;
    hide Saved;
  }

  lemma FlushedDone(s0: Store, s: Store, step: Step)
    requires Flushing(s0, s) && s.phase == Ready && s.pending == None
    ensures Flushed(s0, None, step, s)
  {
    hide Saved;
  }

  /** Only Bump and Clone end a call, and Bump only when nothing waits. */
  lemma EndsCall(s: Store, step: Step)
    requires Enabled(s, step) && s.phase != Ready && Do(s, step).phase == Ready
    ensures step.Clone? || s.pending == None
  {
    hide Insert;
    hide InsertClone;
    hide Listing;
  }

  /** The rest of a call that flushes. */
  lemma {:induction false} FlushRuns(s0: Store, s: Store, run: seq<Step>)
    requires Inv(s) && Flushing(s0, s) && s.phase != Ready && Legal(s, run) && Inside(s, run)
    ensures run != [] && Flushed(s0, s.pending, run[|run| - 1], Exec(s, run))
    decreases |run|
  {
    hide Inv;
    hide Flushing;
    hide Flushed;
    hide Do;
    hide Enabled;
    var step, rest := run[0], run[1..];
    if step.Clone? {
      FlushedClone(s0, s, step.env);
      CloneEnds(s, step.env);
      assert rest == [];
    } else {
      FlushingStep(s0, s, step);
      InvStep(s, step);
      if Do(s, step).phase == Ready {
        EndsCall(s, step);
        FlushedDone(s0, Do(s, step), step);
        assert rest == [];
      } else {
        FlushRuns(s0, Do(s, step), rest);
        assert rest[|rest| - 1] == run[|run| - 1];
      }
    }
  }

  lemma CloneEnds(s: Store, env: Env)
    requires Enabled(s, Clone(env))
    ensures Do(s, Clone(env)).phase == Ready
  {
    hide InsertClone;
  }

  /** A flush, however the saver interleaves with it. */
  lemma FlushEffect(s: Store, run: seq<Step>)
    requires Inv(s) && s.phase == Ready && s.pending == None && s.List1() != map[]
    requires Legal(Do(s, Flush), run) && Inside(Do(s, Flush), run)
    ensures run != [] && Flushed(s, None, run[|run| - 1], Exec(Do(s, Flush), run))
  {
    InvStep(s, Flush);
    FlushRuns(s, Do(s, Flush), run);
  }

  /** An insertion that flushes first, and so does not lose the pair: once the call is over, the pair that was asked
      for is in list1_ and is the last accepted write, unless there was no memory for it. */
  lemma FlushStores(s: Store, f: Factory, env: Env, full: bool, run: seq<Step>)
    requires Inv(s) && Enabled(s, InsertFlushing(f, env, full)) && s.List1() != map[]
    requires Legal(Do(s, InsertFlushing(f, env, full)), run) && Inside(Do(s, InsertFlushing(f, env, full)), run)
    ensures exists p ::
      Carries(p, f, env.now, None) && run != [] && Flushed(s, Some(p), run[|run| - 1], Exec(Do(s, InsertFlushing(f, env, full)), run))
  {
    var step := InsertFlushing(f, env, full);
    InvStep(s, step);
    CreateCarries(f, env.now);
    FlushRuns(s, Do(s, step), run);
  }

  /** The saver may go on while the pair waits; the lists stay. */
  predicate Unmoved(s0: Store, s: Store) {
    s.phase == Cloning && s.a == s0.a && s.b == s0.b && s.front == s0.front && s.version == s0.version && s.last == s0.last
  }

  ghost predicate Stored(s0: Store, p: Option<Pair>, last: Step, s: Store) {
    && s.phase == Ready && s.pending == None && s.version == s0.version && s.front == s0.front && s.List2() == s0.List2()
    && p.Some? && last.Clone?
    && (if last.env.memory then s.List1() == map[p.value.key := p.value] && s.last == s0.last[p.value.key := p.value]
        else s.List1() == map[] && s.last == s0.last)
  }

  lemma StoredClone(s0: Store, s: Store, env: Env)
    requires s0.List1() == map[] && Unmoved(s0, s) && Enabled(s, Clone(env))
    ensures Stored(s0, s.pending, Clone(env), Do(s, Clone(env)))
  {
  }

  lemma UnmovedStep(s0: Store, s: Store, step: Step)
    requires Unmoved(s0, s) && Enabled(s, step) && !step.Clone?
    ensures Unmoved(s0, Do(s, step)) && Do(s, step).pending == s.pending
  {
    hide Insert;
    hide InsertClone;
    hide Listing;
  }

  lemma {:induction false} CloneRuns(s0: Store, s: Store, run: seq<Step>)
    requires s0.List1() == map[] && Unmoved(s0, s) && Legal(s, run) && Inside(s, run)
    ensures run != [] && Stored(s0, s.pending, run[|run| - 1], Exec(s, run))
    decreases |run|
  {
    hide Stored;
    hide Do;
    hide Enabled;
    var step, rest := run[0], run[1..];
    if step.Clone? {
      StoredClone(s0, s, step.env);
      CloneEnds(s, step.env);
      assert rest == [];
    } else {
      UnmovedStep(s0, s, step);
      CloneRuns(s0, Do(s, step), rest);
      assert rest[|rest| - 1] == run[|run| - 1];
    }
  }

  /** With an empty list1_ there is nothing to flush, and the pair is stored at once. */
  lemma EmptyStores(s: Store, f: Factory, env: Env, full: bool, run: seq<Step>)
    requires Enabled(s, InsertFlushing(f, env, full)) && s.List1() == map[]
    requires Legal(Do(s, InsertFlushing(f, env, full)), run) && Inside(Do(s, InsertFlushing(f, env, full)), run)
    ensures exists p ::
      Carries(p, f, env.now, None) && run != [] && Stored(s, Some(p), run[|run| - 1], Exec(Do(s, InsertFlushing(f, env, full)), run))
  {
    CreateCarries(f, env.now);
    CloneRuns(s, Do(s, InsertFlushing(f, env, full)), run);
  }

  lemma {:induction false} LegalAppend(s: Store, x: seq<Step>, y: seq<Step>)
    requires Legal(s, x) && Legal(Exec(s, x), y)
    ensures Legal(s, x + y) && Exec(s, x + y) == Exec(Exec(s, x), y)
    decreases |x|
  {
    hide Do;
    hide Enabled;
    if x == [] {
      assert x + y == y;
    } else {
      assert (x + y)[0] == x[0] && (x + y)[1..] == x[1..] + y;
      LegalAppend(Do(s, x[0]), x[1..], y);
    }
  }

  /** On ordered runs the pair that triggered a flush is what a read returns after it. */
  lemma ReadsFlushed(before: seq<Step>, f: Factory, env: Env, full: bool, run: seq<Step>)
    requires Legal(Empty, before) && Enabled(Exec(Empty, before), InsertFlushing(f, env, full)) && Exec(Empty, before).List1() != map[]
    requires var s := Do(Exec(Empty, before), InsertFlushing(f, env, full)); Legal(s, run) && Inside(s, run)
    requires run != [] && run[|run| - 1].Clone? && run[|run| - 1].env.memory
    ensures var all := before + ([InsertFlushing(f, env, full)] + run);
      Legal(Empty, all) && (Ordered(Empty, all, false) ==>
        Read(Exec(Empty, all), f.key).Some? && Carries(Read(Exec(Empty, all), f.key).value, f, env.now, None))
  {
    var s, step := Exec(Empty, before), InsertFlushing(f, env, full);
    InvRun(Empty, before);
    FlushStores(s, f, env, full, run);
    var p :| Carries(p, f, env.now, None) && Flushed(s, Some(p), run[|run| - 1], Exec(Do(s, step), run));
    CarriesKey(p, f, env.now, None);
    hide Do;
    hide Enabled;
    hide Carries;
    assert ([step] + run)[1..] == run;
    LegalAppend(Empty, before, [step] + run);
    var all := before + ([step] + run);
    if Ordered(Empty, all, false) {
      ReadsLastWrite(all, f.key, false);
    }
  }

  /** How a key is erased between two calls: at once while the other list is empty, and then nothing is left of it
      anywhere; by a mark while both lists are in memory; and else by a tombstone like any other request. */
  lemma EraseChoice(s: Store, k: Key, env: Env)
    requires Inv(s) && s.phase == Ready && 0 < |k| <= MAX_KEY_SIZE
    ensures Enabled(s, EraseNow(k)) <==> s.List2() == map[]
    ensures Enabled(s, EraseNow(k)) ==> var e := Do(s, EraseNow(k));
      (forall p :: !Copy(e, k, p)) && k !in e.last && forall j, p :: j != k ==> (Copy(e, j, p) <==> Copy(s, j, p))
    ensures Enabled(s, EraseMark(k, env)) <==> s.List2() != map[] && s.loaded == []
    ensures Enabled(s, InsertInto(Tombstone(k, 0), env)) || Enabled(s, InsertFlushing(Tombstone(k, 0), env, false))
  {
    hide KeptInv;
    hide SaverInv;
  }

  // ---------- every call ends ----------

  /** Some order of the tables is newest first. */
  lemma {:induction false} ListingExists(tables: seq<Disk>) returns (order: seq<Disk>)
    ensures Listing(order, tables)
  {
    if tables == [] {
      order := [];
    } else {
      var n := |tables| - 1;
      var rest := ListingExists(tables[..n]);
      order := ListingInsert(rest, tables[n]);
      assert tables == tables[..n] + [tables[n]];
      assert multiset(tables) == multiset(tables[..n]) + multiset{tables[n]};
    }
  }

  predicate NewestFirst(order: seq<Disk>) {
    forall i, j :: 0 <= i < j < |order| ==> order[i].newest >= order[j].newest
  }

  lemma {:induction false} ListingInsert(order: seq<Disk>, d: Disk) returns (more: seq<Disk>)
    requires NewestFirst(order)
    ensures multiset(more) == multiset(order) + multiset{d} && NewestFirst(more)
  {
    if order == [] || d.newest >= order[0].newest {
      more := [d] + order;
    } else {
      var first, tail := order[0], order[1..];
      assert order == [first] + tail;
      var rest := ListingInsert(tail, d);
      more := [first] + rest;
      forall i | 0 <= i < |rest| ensures rest[i].newest <= first.newest {
        assert rest[i] in multiset(rest);
        assert rest[i] in tail || rest[i] == d;
      }
    }
  }

  function Steps(p: Phase): nat {
    match p
    case Joining => 8
    case Swapping => 7
    case Starting => 6
    case Clearing => 5
    case Refreshing => 4
    case Bumping => 3
    case Cloning => 2
    case Closing => 1
    case _ => 0
  }

  /** What the saver still has to do. */
  ghost function Unsaved(s: Store): nat {
    if s.saver.Idle? then 0 else 1 + |s.At(s.saver.slot).Keys - s.saver.written.data.Keys|
  }

  /** One step towards the end of the call. */
  ghost predicate Closer(s: Store, step: Step) {
    Enabled(s, step) &&
    var s' := Do(s, step);
    Steps(s'.phase) < Steps(s.phase) || (s'.phase == s.phase && Unsaved(s') < Unsaved(s))
  }

  lemma SaverOn(s: Store) returns (step: Step)
    requires Inv(s) && s.saver.Saving?
    ensures Enabled(s, step) && Do(s, step).phase == s.phase && Unsaved(Do(s, step)) < Unsaved(s)
  {
    var all, done := s.At(s.saver.slot), s.saver.written.data;
    if k :| k in all && k !in done {
      step := SaveOne(k);
      SaverMore(s, k);
    } else {
      forall k | k in done ensures k in all {
        assert Holds(s.saver.start, k, done[k]);
      }
      step := SaveDone;
      SaverDone(s);
    }
  }

  lemma SaverMore(s: Store, k: Key)
    requires Enabled(s, SaveOne(k))
    ensures var s' := Do(s, SaveOne(k)); s'.phase == s.phase && Unsaved(s') < Unsaved(s)
  {
    DoSaveOne(s, k);
    FewerLeft(s.At(s.saver.slot).Keys, s.saver.written.data.Keys, k);
    hide Do;
  }

  lemma DoSaveOne(s: Store, k: Key)
    requires Enabled(s, SaveOne(k))
    ensures s.saver.Saving? && k in s.At(s.saver.slot) && k !in s.saver.written.data
    ensures var s' := Do(s, SaveOne(k));
      && s'.phase == s.phase && s'.saver.Saving? && s'.At(s'.saver.slot) == s.At(s.saver.slot)
      && s'.saver.written.data.Keys == s.saver.written.data.Keys + {k}
  {
  }

  lemma FewerLeft(all: set<Key>, done: set<Key>, k: Key)
    requires k in all && k !in done
    ensures |all - (done + {k})| < |all - done|
  {
    assert all - (done + {k}) == (all - done) - {k};
  }

  lemma SaverDone(s: Store)
    requires s.saver.Saving? && s.saver.written.data.Keys == s.At(s.saver.slot).Keys
    ensures Enabled(s, SaveDone) && Do(s, SaveDone).phase == s.phase && Unsaved(Do(s, SaveDone)) < Unsaved(s)
  {
  }

  lemma MainOn(s: Store, order: seq<Disk>) returns (step: Step)
    requires Inv(s) && s.phase !in {Ready, Closing, Closed} && (s.phase == Joining ==> s.saver.Idle?) && Listing(order, s.tables)
    ensures Enabled(s, step) && Steps(Do(s, step).phase) < Steps(s.phase) && Do(s, step).phase !in {Closing, Closed}
  {
    hide Listing;
    hide Insert;
    hide InsertClone;
    hide SaverInv;
    hide KeptInv;
    hide Saved;
    match s.phase
    case Joining => step := Join;
    case Swapping => step := Swap;
    case Starting => step := Start;
    case Clearing => step := Clear;
    case Refreshing => step := Refresh(order);
    case Bumping => step := Bump;
    case Cloning => step := Clone(Env(0, false, true));
  }

  lemma NextStep(s: Store) returns (step: Step)
    requires Inv(s) && s.phase !in {Ready, Closing, Closed}
    ensures Closer(s, step) && Do(s, step).phase !in {Closing, Closed}
  {
    hide Inv;
    hide Do;
    hide Enabled;
    hide Unsaved;
    hide Listing;
    if s.phase == Joining && s.saver.Saving? {
      step := SaverOn(s);
    } else {
      var order := ListingExists(s.tables);
      step := MainOn(s, order);
    }
  }

  /** Nothing can block a call for good: from every state inside a flush some run ends it. */
  lemma {:induction false} CallEnds(s: Store) returns (run: seq<Step>)
    requires Inv(s) && s.phase !in {Closing, Closed}
    ensures Legal(s, run) && Inside(s, run)
    decreases Steps(s.phase), Unsaved(s)
  {
    hide Inv;
    hide Do;
    hide Enabled;
    if s.phase == Ready {
      run := [];
    } else {
      var step := NextStep(s);
      InvStep(s, step);
      var rest := CallEnds(Do(s, step));
      run := [step] + rest;
      assert run[1..] == rest;
    }
  }

  lemma {:induction false} SaverEnds(s: Store) returns (run: seq<Step>)
    requires Inv(s) && s.phase in {Closing, Closed}
    ensures Legal(s, run) && Exec(s, run).phase == s.phase && Exec(s, run).saver.Idle?
    decreases Unsaved(s)
  {
    hide Inv;
    hide Do;
    hide Enabled;
    if s.saver.Idle? {
      run := [];
    } else {
      var step := SaverOn(s);
      InvStep(s, step);
      var rest := SaverEnds(Do(s, step));
      run := [step] + rest;
      assert run[1..] == rest;
    }
  }
}
