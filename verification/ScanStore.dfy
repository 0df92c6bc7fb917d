/**
 The scan record store: any number of writers and readers on one directory tree.

 A write renames a finished record into place, lists the unit's directory, removes
 the other `*.json` files one at a time, then lists and empties the flat directory
 an older layout used. Each of these is one step, and the steps of different
 writers interleave freely. Files may also vanish or become undecodable on their
 own. A record is filed under a 64-bit hash of its key, so two keys may share a
 file name.
 */
module ScanStore {
  import opened Common
  import opened CacheKey

  /** One directory a unit, and the flat directory of the older layout. */
  datatype Dir = Unit(unitVersion: Bytes) | Flat

  datatype Name = Name(dir: Dir, file: Bytes)

  datatype Entry<P> = Record(key: ScanCacheKey, schema: Bytes, payload: P) | Undecodable

  /** `scan-record-v1` */
  const SCHEMA: Bytes := [0x73, 0x63, 0x61, 0x6e, 0x2d, 0x72, 0x65, 0x63, 0x6f, 0x72, 0x64, 0x2d, 0x76, 0x31]

  function NameOf(key: ScanCacheKey): Name {
    Name(Unit(key.context.unitVersion), FileName(key))
  }

  /** `Path::extension` is `json`. */
  predicate IsJson(file: Bytes) {
    |file| > |JSON_SUFFIX| && file[|file| - |JSON_SUFFIX|..] == JSON_SUFFIX
  }

  datatype Phase =
    | Writing
    | Renamed
    | Sweeping(pending: set<Name>)
    | Swept
    | SweepingFlat(pending: set<Name>)
    | Finished

  /** `path` is where the writer's record goes, computed once from its key. */
  datatype Writer<P> = Writer(key: ScanCacheKey, path: Name, payload: P, phase: Phase)

  datatype Store<P> = Store(files: map<Name, Entry<P>>, writers: seq<Writer<P>>)

  datatype Event =
    | Rename(w: nat)
    | List(w: nat)
    | Delete(w: nat, victim: Name)
    | EndSweep(w: nat)
    | ListFlat(w: nat)
    | DeleteFlat(w: nat, victim: Name)
    | End(w: nat)
    | Vanish(name: Name)
    | Corrupt(name: Name)

  predicate ByWriter(e: Event) {
    !e.Vanish? && !e.Corrupt?
  }

  /** What a sweep of `dir` that keeps `keep` will remove. */
  function Stale<P>(files: map<Name, Entry<P>>, dir: Dir, keep: set<Name>): set<Name> {
    set n | n in files && n.dir == dir && IsJson(n.file) && n !in keep
  }

  predicate Enabled<P>(s: Store<P>, e: Event) {
    if ByWriter(e) then
      && e.w < |s.writers|
      && var phase := s.writers[e.w].phase;
         match e
         case Rename(_) => phase == Writing
         case List(_) => phase == Renamed
         case Delete(_, victim) => phase.Sweeping? && victim in phase.pending
         case EndSweep(_) => phase == Sweeping({})
         case ListFlat(_) => phase == Swept
         case DeleteFlat(_, victim) => phase.SweepingFlat? && victim in phase.pending
         case End(_) => phase == SweepingFlat({})
    else true
  }

  function SetPhase<P>(writers: seq<Writer<P>>, w: nat, phase: Phase): seq<Writer<P>>
    requires w < |writers|
  {
    writers[w := writers[w].(phase := phase)]
  }

  function Next<P>(s: Store<P>, e: Event): Store<P>
    requires Enabled(s, e)
  {
    match e
    case Rename(w) =>
      var me := s.writers[w];
      Store(s.files[me.path := Record(me.key, SCHEMA, me.payload)], SetPhase(s.writers, w, Renamed))
    case List(w) =>
      var mine := s.writers[w].path;
      s.(writers := SetPhase(s.writers, w, Sweeping(Stale(s.files, mine.dir, {mine}))))
    case Delete(w, victim) =>
      Store(s.files - {victim}, SetPhase(s.writers, w, Sweeping(s.writers[w].phase.pending - {victim})))
    case EndSweep(w) => s.(writers := SetPhase(s.writers, w, Swept))
    case ListFlat(w) => s.(writers := SetPhase(s.writers, w, SweepingFlat(Stale(s.files, Flat, {}))))
    case DeleteFlat(w, victim) =>
      Store(s.files - {victim}, SetPhase(s.writers, w, SweepingFlat(s.writers[w].phase.pending - {victim})))
    case End(w) => s.(writers := SetPhase(s.writers, w, Finished))
    case Vanish(name) => s.(files := s.files - {name})
    case Corrupt(name) => if name in s.files then s.(files := s.files[name := Undecodable]) else s
  }

  ghost predicate Runs<P(!new)>(s: Store<P>, events: seq<Event>, last: Store<P>)
    decreases |events|
  {
    if events == [] then s == last
    else Enabled(s, events[0]) && Runs(Next(s, events[0]), events[1..], last)
  }

  // ------------------------------------------------------------------ reads

  /** Looking for `key` in the file `path`: a record counts only under exactly
      the key asked for and the current schema. */
  function ReadAt<P>(files: map<Name, Entry<P>>, path: Name, key: ScanCacheKey): Option<P> {
    if path in files && files[path].Record? && files[path].key == key && files[path].schema == SCHEMA
    then Some(files[path].payload) else None
  }

  /** `read_scan_payload` */
  function Read<P>(files: map<Name, Entry<P>>, key: ScanCacheKey): Option<P> {
    ReadAt(files, NameOf(key), key)
  }

  /** Records go to a unit's directory as `*.json`; `NameOf` sees to both. */
  ghost predicate Placed<P>(writers: seq<Writer<P>>) {
    forall w :: 0 <= w < |writers| ==> writers[w].path.dir.Unit? && IsJson(writers[w].path.file)
  }

  lemma NamesArePlaced(key: ScanCacheKey)
    ensures NameOf(key).dir == Unit(key.context.unitVersion) && IsJson(NameOf(key).file)
  {
    assert FileName(key)[|FileName(key)| - |JSON_SUFFIX|..] == JSON_SUFFIX;
  }

  /** No writer has started; anything may be on disk, such as records stranded by
      an earlier writer that never finished. */
  ghost predicate Idle<P>(s: Store<P>) {
    Placed(s.writers) && forall w :: 0 <= w < |s.writers| ==> s.writers[w].phase == Writing
  }

  /** And nothing on disk is a current record: leftovers are undecodable or of
      another schema. */
  ghost predicate Init<P>(s: Store<P>) {
    Idle(s) && forall n :: n in s.files ==> s.files[n].Undecodable? || s.files[n].schema != SCHEMA
  }

  predicate Removes(e: Event, name: Name) {
    match e
    case Delete(_, victim) => victim == name
    case DeleteFlat(_, victim) => victim == name
    case Vanish(n) => n == name
    case Corrupt(n) => n == name
    case _ => false
  }

  /** The payload of the latest write to `path`, if that write was under exactly
      `key` and nothing has removed or spoilt the file since. */
  function LastWritten<P>(writers: seq<Writer<P>>, events: seq<Event>, path: Name, key: ScanCacheKey): Option<P>
    decreases |events|
  {
    if events == [] then None
    else
      var e := events[|events| - 1];
      if e.Rename? && e.w < |writers| && writers[e.w].path == path then
        if writers[e.w].key == key then Some(writers[e.w].payload) else None
      else if Removes(e, path) then None
      else LastWritten(writers, events[..|events| - 1], path, key)
  }

  lemma {:induction false} RunSnoc<P(!new)>(s: Store<P>, events: seq<Event>, e: Event, last: Store<P>)
    returns (mid: Store<P>)
    requires Runs(s, events + [e], last)
    ensures Runs(s, events, mid) && Enabled(mid, e) && last == Next(mid, e)
    decreases |events|
  {
    if events == [] {
      mid := s;
      assert ([] + [e])[1..] == [];
    } else {
      assert (events + [e])[1..] == events[1..] + [e];
      mid := RunSnoc(Next(s, events[0]), events[1..], e, last);
    }
  }

  /** Writers keep their key and payload through every step. */
  ghost predicate SameWork<P>(a: seq<Writer<P>>, b: seq<Writer<P>>) {
    |a| == |b| && forall w :: 0 <= w < |a| ==>
      a[w].key == b[w].key && a[w].path == b[w].path && a[w].payload == b[w].payload
  }

  lemma {:induction false} RunsKeepWork<P(!new)>(s: Store<P>, events: seq<Event>, last: Store<P>)
    requires Runs(s, events, last)
    ensures SameWork(s.writers, last.writers)
    decreases |events|
  {
    if events != [] {
      RunsKeepWork(Next(s, events[0]), events[1..], last);
    }
  }

  /** At every reachable state, what is found at `path` is exactly what the events
      say was last written there. */
  lemma {:induction false} ReadIsTheLastWrite<P(!new)>(
    s: Store<P>, events: seq<Event>, last: Store<P>, path: Name, key: ScanCacheKey)
    requires Init(s) && Runs(s, events, last)
    ensures ReadAt(last.files, path, key) == LastWritten(s.writers, events, path, key)
    decreases |events|
  {
    if events != [] {
      var e, before := events[|events| - 1], events[..|events| - 1];
      assert before + [e] == events;
      var mid := RunSnoc(s, before, e, last);
      ReadIsTheLastWrite(s, before, mid, path, key);
      RunsKeepWork(s, before, mid);
    }
  }

  /** The payload of the latest write under exactly `key`, wherever it went. */
  function LatestUnder<P>(writers: seq<Writer<P>>, events: seq<Event>, key: ScanCacheKey): Option<P>
    decreases |events|
  {
    if events == [] then None
    else
      var e := events[|events| - 1];
      if e.Rename? && e.w < |writers| && writers[e.w].key == key then Some(writers[e.w].payload)
      else LatestUnder(writers, events[..|events| - 1], key)
  }

  lemma {:induction false} LastWrittenIsLatestUnder<P>(
    writers: seq<Writer<P>>, events: seq<Event>, path: Name, key: ScanCacheKey)
    requires forall w :: 0 <= w < |writers| && writers[w].key == key ==> writers[w].path == path
    ensures LastWritten(writers, events, path, key).Some? ==>
              LastWritten(writers, events, path, key) == LatestUnder(writers, events, key)
    decreases |events|
  {
    if events != [] {
      LastWrittenIsLatestUnder(writers, events[..|events| - 1], path, key);
    }
  }

  /** A hit for a key is the payload of the latest write under that very key, at
      every reachable state, even when other keys have the same file name and
      files vanish or are spoilt. */
  lemma HitIsTheLatestWrite<P(!new)>(s: Store<P>, events: seq<Event>, last: Store<P>, key: ScanCacheKey)
    requires Init(s) && Runs(s, events, last)
    requires forall w :: 0 <= w < |s.writers| && s.writers[w].key == key ==> s.writers[w].path == NameOf(key)
    ensures Read(last.files, key).Some? ==> Read(last.files, key) == LatestUnder(s.writers, events, key)
  {
    ReadIsTheLastWrite(s, events, last, NameOf(key), key);
    LastWrittenIsLatestUnder(s.writers, events, NameOf(key), key);
  }

  // ----------------------------------------------------------------- sweeps

  function UnitOf<P>(w: Writer<P>): Dir {
    w.path.dir
  }

  /** The last writer to rename a record into `dir`. */
  function LastRenamer<P>(writers: seq<Writer<P>>, events: seq<Event>, dir: Dir): Option<nat>
    decreases |events|
  {
    if events == [] then None
    else
      var e := events[|events| - 1];
      if e.Rename? && e.w < |writers| && UnitOf(writers[e.w]) == dir then Some(e.w)
      else LastRenamer(writers, events[..|events| - 1], dir)
  }

  /** Every `*.json` in the unit is the last renamer's own, or that writer has
      still to list the directory, or has it marked for removal. */
  ghost predicate SweepInv<P>(s: Store<P>, dir: Dir, last: nat) {
    && last < |s.writers|
    && var me := s.writers[last];
    && UnitOf(me) == dir
    && me.phase != Writing
    && (me.phase.Sweeping? ==> Stale(s.files, dir, {me.path}) <= me.phase.pending)
    && (me.phase.Swept? || me.phase.SweepingFlat? || me.phase.Finished? ==> Stale(s.files, dir, {me.path}) == {})
  }

  lemma {:induction false} RunsKeepSweepInv<P(!new)>(s: Store<P>, events: seq<Event>, last: Store<P>, dir: Dir)
    requires Idle(s) && Runs(s, events, last)
    ensures var r := LastRenamer(s.writers, events, dir); r.Some? ==> SweepInv(last, dir, r.value)
    decreases |events|
  {
    if events != [] {
      var e, before := events[|events| - 1], events[..|events| - 1];
      assert before + [e] == events;
      var mid := RunSnoc(s, before, e, last);
      RunsKeepWork(s, before, mid);
      RunsKeepSweepInv(s, before, mid, dir);
    }
  }

  ghost predicate FlatInv<P>(s: Store<P>) {
    && Placed(s.writers)
    && forall w :: 0 <= w < |s.writers| ==>
      var phase := s.writers[w].phase;
      && (phase.SweepingFlat? ==> Stale(s.files, Flat, {}) <= phase.pending)
      && (phase.Finished? ==> Stale(s.files, Flat, {}) == {})
  }

  lemma {:induction false} RunsKeepFlatInv<P(!new)>(s: Store<P>, events: seq<Event>, last: Store<P>)
    requires FlatInv(s) && Runs(s, events, last)
    ensures FlatInv(last)
    decreases |events|
  {
    if events != [] {
      var e, next := events[0], Next(s, events[0]);
      if e.DeleteFlat? {
        assert Stale(next.files, Flat, {}) == Stale(s.files, Flat, {}) - {e.victim};
      } else {
        assert Stale(next.files, Flat, {}) <= Stale(s.files, Flat, {});
      }
      RunsKeepFlatInv(next, events[1..], last);
    }
  }

  ghost predicate AllFinished<P>(s: Store<P>) {
    forall w :: 0 <= w < |s.writers| ==> s.writers[w].phase == Finished
  }

  lemma {:induction false} FinishedWritersRenamed<P(!new)>(s: Store<P>, events: seq<Event>, last: Store<P>, w: nat)
    requires Idle(s) && Runs(s, events, last)
    requires w < |last.writers| && last.writers[w].phase != Writing
    ensures LastRenamer(s.writers, events, UnitOf(last.writers[w])).Some?
    decreases |events|
  {
    RunsKeepWork(s, events, last);
    if events != [] {
      var e, before := events[|events| - 1], events[..|events| - 1];
      assert before + [e] == events;
      var mid := RunSnoc(s, before, e, last);
      RunsKeepWork(s, before, mid);
      if mid.writers[w].phase != Writing {
        FinishedWritersRenamed(s, before, mid, w);
      }
    }
  }

  predicate PastSweep(phase: Phase) {
    phase.Swept? || phase.SweepingFlat? || phase.Finished?
  }

  /** As soon as the last renamer into a unit has swept, whatever was there
      before and however the other writers stand, the unit holds no `*.json` but
      (at most) that writer's; the flat directory holds none once any writer is
      done; and a unit whose writer has begun has a last renamer. */
  lemma AtMostOneRecordRemains<P(!new)>(s: Store<P>, events: seq<Event>, last: Store<P>, dir: Dir)
    requires Idle(s) && Runs(s, events, last)
    ensures var r := LastRenamer(s.writers, events, dir);
            r.Some? ==> r.value < |s.writers| == |last.writers| && (PastSweep(last.writers[r.value].phase) ==>
              forall n :: n in last.files && n.dir == dir && IsJson(n.file) ==> n == s.writers[r.value].path)
    ensures forall w ::
      0 <= w < |last.writers| && UnitOf(last.writers[w]) == dir && last.writers[w].phase != Writing ==>
              LastRenamer(s.writers, events, dir).Some?
    ensures forall w, n ::
      0 <= w < |last.writers| && last.writers[w].phase.Finished? && n in last.files && n.dir == Flat ==>
              !IsJson(n.file)
  {
    RunsKeepWork(s, events, last);
    RunsKeepSweepInv(s, events, last, dir);
    RunsKeepFlatInv(s, events, last);
    forall w | 0 <= w < |last.writers| && UnitOf(last.writers[w]) == dir && last.writers[w].phase != Writing
      ensures LastRenamer(s.writers, events, dir).Some?
    {
      FinishedWritersRenamed(s, events, last, w);
    }
    var r := LastRenamer(s.writers, events, dir);
    if r.Some? && PastSweep(last.writers[r.value].phase) {
      forall n | n in last.files && n.dir == dir && IsJson(n.file) ensures n == s.writers[r.value].path {
        assert n !in Stale(last.files, dir, {s.writers[r.value].path});
      }
    }
    forall w, n | 0 <= w < |last.writers| && last.writers[w].phase.Finished? && n in last.files && n.dir == Flat
      ensures !IsJson(n.file)
    {
      assert n !in Stale(last.files, Flat, {});
    }
  }

  /** What is marked for removal is `*.json` in the writer's own unit (its own
      record aside) or in the flat directory. */
  ghost predicate PendingOk<P>(me: Writer<P>) {
    && (me.phase.Sweeping? ==>
          forall n :: n in me.phase.pending ==> n.dir == UnitOf(me) && IsJson(n.file) && n != me.path)
    && (me.phase.SweepingFlat? ==> forall n :: n in me.phase.pending ==> n.dir == Flat && IsJson(n.file))
  }

  ghost predicate PendingInv<P>(s: Store<P>) {
    forall w :: 0 <= w < |s.writers| ==> PendingOk(s.writers[w])
  }

  predicate Touches(e: Event, name: Name) {
    (e.Vanish? || e.Corrupt?) && e.name == name
  }

  lemma StepKeepsPending<P>(s: Store<P>, e: Event)
    requires PendingInv(s) && Enabled(s, e)
    ensures PendingInv(Next(s, e)) && SameWork(s.writers, Next(s, e).writers)
  {
    forall w | 0 <= w < |s.writers| ensures PendingOk(Next(s, e).writers[w]) {
    }
  }

  lemma {:induction false} RunsKeepPending<P(!new)>(s: Store<P>, events: seq<Event>, last: Store<P>)
    requires PendingInv(s) && Runs(s, events, last)
    ensures PendingInv(last)
    decreases |events|
  {
    if events != [] {
      StepKeepsPending(s, events[0]);
      RunsKeepPending(Next(s, events[0]), events[1..], last);
    }
  }

  lemma IdleHoldsInvariants<P>(s: Store<P>)
    requires Idle(s)
    ensures PendingInv(s) && FlatInv(s)
  {
  }

  // ------------------------------------------------------- units are isolated

  /** The event is a step in the unit's own directory: one of its writers' rename
      or sweep, or outside interference with one of its names. */
  predicate Concerns<P>(writers: seq<Writer<P>>, e: Event, dir: Dir) {
    if ByWriter(e) then
      (e.Rename? || e.List? || e.Delete? || e.EndSweep?) && e.w < |writers| && UnitOf(writers[e.w]) == dir
    else e.name.dir == dir
  }

  function Concerning<P>(writers: seq<Writer<P>>, events: seq<Event>, dir: Dir): seq<Event> {
    if events == [] then []
    else (if Concerns(writers, events[0], dir) then [events[0]] else []) + Concerning(writers, events[1..], dir)
  }

  /** How far a writer is with its own unit. */
  function UnitPhase(phase: Phase): Phase {
    if phase.SweepingFlat? || phase.Finished? then Swept else phase
  }

  /** The unit's files agree, and so does how far its writers are with it. */
  ghost predicate SameUnit<P>(s: Store<P>, t: Store<P>, dir: Dir) {
    && SameWork(s.writers, t.writers)
    && (forall n: Name :: n.dir == dir ==>
          (n in s.files <==> n in t.files) && (n in s.files ==> s.files[n] == t.files[n]))
    && forall w :: 0 <= w < |s.writers| && UnitOf(s.writers[w]) == dir ==>
         UnitPhase(s.writers[w].phase) == UnitPhase(t.writers[w].phase)
  }

  lemma OwnStepInStep<P>(s: Store<P>, t: Store<P>, e: Event, dir: Dir)
    requires SameUnit(s, t, dir) && Enabled(s, e) && Concerns(s.writers, e, dir)
    ensures Enabled(t, e) && SameUnit(Next(s, e), Next(t, e), dir)
  {
  }

  lemma OtherStepApart<P>(s: Store<P>, t: Store<P>, e: Event, dir: Dir)
    requires SameUnit(s, t, dir) && Enabled(s, e) && !Concerns(s.writers, e, dir)
    requires dir != Flat && PendingInv(s)
    ensures SameUnit(Next(s, e), t, dir)
  {
    var next := Next(s, e);
    forall w | 0 <= w < |s.writers| && UnitOf(s.writers[w]) == dir
      ensures UnitPhase(next.writers[w].phase) == UnitPhase(s.writers[w].phase)
    {
    }
  }

  lemma {:induction false} ConcerningFollowsWork<P>(a: seq<Writer<P>>, b: seq<Writer<P>>, events: seq<Event>, dir: Dir)
    requires SameWork(a, b)
    ensures Concerning(a, events, dir) == Concerning(b, events, dir)
  {
    if events != [] {
      ConcerningFollowsWork(a, b, events[1..], dir);
    }
  }

  /** `own` alone is a run, and leaves the unit as `last` has it. */
  ghost predicate AloneGives<P(!new)>(t: Store<P>, own: seq<Event>, last: Store<P>, dir: Dir) {
    exists alone :: Runs(t, own, alone) && SameUnit(last, alone, dir)
  }

  lemma {:induction false} RunsInStep<P(!new)>(s: Store<P>, t: Store<P>, events: seq<Event>, last: Store<P>, dir: Dir)
    requires SameUnit(s, t, dir) && dir != Flat && PendingInv(s) && Runs(s, events, last)
    ensures AloneGives(t, Concerning(s.writers, events, dir), last, dir)
    decreases |events|
  {
    if events == [] {
      assert Runs(t, [], t);
    } else {
      var e, next, rest := events[0], Next(s, events[0]), events[1..];
      StepKeepsPending(s, e);
      ConcerningFollowsWork(s.writers, next.writers, rest, dir);
      if Concerns(s.writers, e, dir) {
        OwnStepInStep(s, t, e, dir);
        RunsInStep(next, Next(t, e), rest, last, dir);
      } else {
        OtherStepApart(s, t, e, dir);
        RunsInStep(next, t, rest, last, dir);
        assert Concerning(s.writers, events, dir) == Concerning(s.writers, rest, dir);
      }
    }
  }

  /** What a run does to a unit is what its own writers' steps and outside
      interference with its names do alone: steps of other units' writers, in
      whatever order they fall between, change nothing there. */
  lemma UnitsAreIsolated<P(!new)>(s: Store<P>, events: seq<Event>, last: Store<P>, dir: Dir)
    requires PendingInv(s) && dir != Flat && Runs(s, events, last)
    ensures AloneGives(s, Concerning(s.writers, events, dir), last, dir)
  {
    RunsInStep(s, s, events, last, dir);
  }

  lemma StepLeavesOthers<P>(s: Store<P>, e: Event, n: Name)
    requires PendingInv(s) && Placed(s.writers) && Enabled(s, e) && !Touches(e, n)
    requires n.dir != Flat || !EndsInJson(n.file)
    requires ByWriter(e) ==> UnitOf(s.writers[e.w]) != n.dir
    ensures n in Next(s, e).files <==> n in s.files
    ensures n in s.files ==> Next(s, e).files[n] == s.files[n]
  {
    JsonFilesEndInJson(n.file);
  }

  /** A file outside the sweeps' reach is never touched by a writer of another
      unit, whether or not its own unit has writers too. */
  lemma {:induction false} OtherUnitsUntouched<P(!new)>(s: Store<P>, events: seq<Event>, last: Store<P>, n: Name)
    requires PendingInv(s) && Placed(s.writers) && Runs(s, events, last)
    requires n.dir != Flat || !EndsInJson(n.file)
    requires forall e :: e in events ==>
      if ByWriter(e) then e.w < |s.writers| && UnitOf(s.writers[e.w]) != n.dir else e.name != n
    ensures n in last.files <==> n in s.files
    ensures n in s.files ==> last.files[n] == s.files[n]
    decreases |events|
  {
    if events != [] {
      var e := events[0];
      assert e in events;
      StepLeavesOthers(s, e, n);
      StepKeepsPending(s, e);
      OtherUnitsUntouched(Next(s, e), events[1..], last, n);
    }
  }

  /** Something and then ".json". */
  predicate EndsInJson(file: Bytes) {
    && |file| >= 6
    && file[|file| - 5] == 0x2e && file[|file| - 4] == 0x6a && file[|file| - 3] == 0x73
    && file[|file| - 2] == 0x6f && file[|file| - 1] == 0x6e
  }

  lemma JsonFilesEndInJson(file: Bytes)
    ensures IsJson(file) <==> EndsInJson(file)
  {
  }

  lemma StepLeavesStrays<P>(s: Store<P>, e: Event, n: Name)
    requires PendingInv(s) && Enabled(s, e) && !Touches(e, n) && !EndsInJson(n.file)
    requires e.Rename? ==> s.writers[e.w].path != n
    ensures n in Next(s, e).files <==> n in s.files
    ensures n in s.files ==> Next(s, e).files[n] == s.files[n]
  {
    JsonFilesEndInJson(n.file);
  }

  lemma {:induction false} RunLeavesStrays<P(!new)>(s: Store<P>, events: seq<Event>, last: Store<P>, n: Name)
    requires PendingInv(s) && Runs(s, events, last) && !EndsInJson(n.file)
    requires forall e :: e in events ==>
      !Touches(e, n) && (e.Rename? && e.w < |s.writers| ==> s.writers[e.w].path != n)
    ensures n in last.files <==> n in s.files
    ensures n in s.files ==> last.files[n] == s.files[n]
    decreases |events|
  {
    if events != [] {
      var e := events[0];
      assert e in events;
      StepLeavesStrays(s, e, n);
      StepKeepsPending(s, e);
      forall x | x in events[1..] && x.Rename? && x.w < |Next(s, e).writers|
        ensures Next(s, e).writers[x.w].path != n
      {
        assert x in events;
      }
      RunLeavesStrays(Next(s, e), events[1..], last, n);
    }
  }

  /** Another run's file in flight has another extension: no step of any writer, of
      its own unit or another, changes a file that does not end in ".json", but for
      a rename onto that very path. */
  lemma FilesInFlightAreLeftAlone<P(!new)>(s: Store<P>, events: seq<Event>, last: Store<P>, n: Name)
    requires Idle(s) && Runs(s, events, last) && !EndsInJson(n.file)
    requires forall e :: e in events ==> match e
      case Rename(w) => w < |s.writers| ==> s.writers[w].path != n
      case Vanish(name) => name != n
      case Corrupt(name) => name != n
      case _ => true
    ensures n in last.files <==> n in s.files
    ensures n in s.files ==> last.files[n] == s.files[n]
  {
    IdleHoldsInvariants(s);
    RunLeavesStrays(s, events, last, n);
  }

  /** Listing a directory marks every other file of it that does end so: a unit's,
      the writer's own record aside, and the flat directory's. */
  lemma ListingMarksTheRest<P>(s: Store<P>, w: nat, n: Name)
    requires w < |s.writers| && n in s.files
    ensures Enabled(s, List(w)) && n.dir == s.writers[w].path.dir ==>
      var phase := Next(s, List(w)).writers[w].phase;
      phase.Sweeping? && (n in phase.pending <==> EndsInJson(n.file) && n != s.writers[w].path)
    ensures Enabled(s, ListFlat(w)) && n.dir == Flat ==>
      var phase := Next(s, ListFlat(w)).writers[w].phase;
      phase.SweepingFlat? && (n in phase.pending <==> EndsInJson(n.file))
  {
    JsonFilesEndInJson(n.file);
  }

  // ------------------------------------- whether the latest record survives

  predicate Marked<P>(w: Writer<P>, name: Name) {
    w.phase.Sweeping? && name in w.phase.pending
  }

  predicate RenamesInto<P>(writers: seq<Writer<P>>, e: Event, dir: Dir) {
    e.Rename? && e.w < |writers| && UnitOf(writers[e.w]) == dir
  }

  ghost predicate NoRenameInto<P>(writers: seq<Writer<P>>, events: seq<Event>, dir: Dir) {
    forall e :: e in events ==> !RenamesInto(writers, e, dir)
  }

  ghost predicate NoInterference(events: seq<Event>) {
    forall e :: e in events ==> ByWriter(e)
  }

  /** The writer has the record marked, or has renamed another one into the unit
      and is yet to list it. */
  predicate Threatens<P>(w: Writer<P>, name: Name) {
    Marked(w, name) || (w.phase == Renamed && UnitOf(w) == name.dir && w.path != name)
  }

  ghost predicate Threatened<P>(s: Store<P>, name: Name) {
    exists w :: 0 <= w < |s.writers| && Threatens(s.writers[w], name)
  }

  /** While the record is there no step changes who threatens it, and only a
      writer that does removes it. */
  lemma FateIsSettled<P>(s: Store<P>, e: Event, name: Name)
    requires PendingInv(s) && Enabled(s, e) && ByWriter(e) && !RenamesInto(s.writers, e, name.dir)
    requires name in s.files && name.dir != Flat && IsJson(name.file)
    ensures name !in Next(s, e).files ==> Threatens(s.writers[e.w], name)
    ensures name in Next(s, e).files ==> forall w :: 0 <= w < |s.writers| ==>
              (Threatens(Next(s, e).writers[w], name) <==> Threatens(s.writers[w], name))
  {
    forall w | 0 <= w < |s.writers| && w != e.w ensures Next(s, e).writers[w] == s.writers[w] {
    }
  }

  lemma LaterRenamesFollowWork<P>(a: seq<Writer<P>>, b: seq<Writer<P>>, events: seq<Event>, dir: Dir)
    requires SameWork(a, b) && NoRenameInto(a, events, dir)
    ensures NoRenameInto(b, events, dir)
  {
    forall e | e in events ensures !RenamesInto(b, e, dir) {
      assert !RenamesInto(a, e, dir);
    }
  }

  /** The last rename into a unit decides its record's fate: whatever the writers'
      schedule from there, the record is still there at the end exactly when at
      that moment no writer had it marked and no other record's writer was yet to
      list the unit. */
  lemma {:induction false} LatestRecordSurvivesExactlyWhen<P(!new)>(
    s: Store<P>, events: seq<Event>, last: Store<P>, name: Name)
    requires PendingInv(s) && Runs(s, events, last) && AllFinished(last)
    requires name in s.files && name.dir != Flat && IsJson(name.file)
    requires NoInterference(events) && NoRenameInto(s.writers, events, name.dir)
    ensures name in last.files <==> !Threatened(s, name)
    decreases |events|
  {
    if events != [] {
      var e, rest, next := events[0], events[1..], Next(s, events[0]);
      assert e in events;
      FateIsSettled(s, e, name);
      StepKeepsPending(s, e);
      LaterRenamesFollowWork(s.writers, next.writers, rest, name.dir);
      if name in next.files {
        LatestRecordSurvivesExactlyWhen(next, rest, last, name);
        SameThreats(s, next, name);
      } else {
        GoneStaysGone(next, rest, last, name);
      }
    }
  }

  lemma SameThreats<P>(s: Store<P>, next: Store<P>, name: Name)
    requires |s.writers| == |next.writers|
    requires forall w :: 0 <= w < |s.writers| ==> (Threatens(next.writers[w], name) <==> Threatens(s.writers[w], name))
    ensures Threatened(next, name) <==> Threatened(s, name)
  {
    if w :| 0 <= w < |s.writers| && Threatens(s.writers[w], name) {
      assert Threatens(next.writers[w], name);
    }
  }

  lemma StepKeepsGone<P>(s: Store<P>, e: Event, name: Name)
    requires Enabled(s, e) && name !in s.files && !RenamesInto(s.writers, e, name.dir)
    ensures name !in Next(s, e).files && SameWork(s.writers, Next(s, e).writers)
  {
  }

  lemma {:induction false} GoneStaysGone<P(!new)>(s: Store<P>, events: seq<Event>, last: Store<P>, name: Name)
    requires Runs(s, events, last) && name !in s.files
    requires NoRenameInto(s.writers, events, name.dir)
    ensures name !in last.files
    decreases |events|
  {
    if events != [] {
      var rest, next := events[1..], Next(s, events[0]);
      assert events[0] in events;
      StepKeepsGone(s, events[0], name);
      LaterRenamesFollowWork(s.writers, next.writers, rest, name.dir);
      GoneStaysGone(next, rest, last, name);
    }
  }

  /** The stores of a run in which two writers of one unit both rename, then both
      list, and then each removes the other's record. */
  function ErasingRun<P>(a: Writer<P>, b: Writer<P>): seq<Store<P>> {
    var x, y := a.path, b.path;
    var ra, rb := Record(a.key, SCHEMA, a.payload), Record(b.key, SCHEMA, b.payload);
    [Store(map[], [a.(phase := Writing), b.(phase := Writing)]),
     Store(map[x := ra], [a.(phase := Renamed), b.(phase := Writing)]),
     Store(map[x := ra, y := rb], [a.(phase := Renamed), b.(phase := Renamed)]),
     Store(map[x := ra, y := rb], [a.(phase := Sweeping({y})), b.(phase := Renamed)]),
     Store(map[x := ra, y := rb], [a.(phase := Sweeping({y})), b.(phase := Sweeping({x}))]),
     Store(map[x := ra], [a.(phase := Sweeping({})), b.(phase := Sweeping({x}))]),
     Store(map[], [a.(phase := Sweeping({})), b.(phase := Sweeping({}))])]
  }

  function ErasingEvents<P>(a: Writer<P>, b: Writer<P>): seq<Event> {
    [Rename(0), Rename(1), List(0), List(1), Delete(0, b.path), Delete(1, a.path)]
  }

  ghost predicate ErasingStep<P(!new)>(a: Writer<P>, b: Writer<P>, k: nat)
    requires k < 6
  {
    var run, e := ErasingRun(a, b), ErasingEvents(a, b)[k];
    Enabled(run[k], e) && run[k + 1] == Next(run[k], e)
  }

  lemma ErasingRenames<P(!new)>(a: Writer<P>, b: Writer<P>)
    requires UnitOf(a) == UnitOf(b) != Flat && a.path != b.path && IsJson(a.path.file) && IsJson(b.path.file)
    ensures ErasingStep(a, b, 0) && ErasingStep(a, b, 1)
  {
  }

  lemma ErasingLists<P(!new)>(a: Writer<P>, b: Writer<P>)
    requires UnitOf(a) == UnitOf(b) != Flat && a.path != b.path && IsJson(a.path.file) && IsJson(b.path.file)
    ensures ErasingStep(a, b, 2) && ErasingStep(a, b, 3)
  {
    var files := ErasingRun(a, b)[2].files;
    var x, y := a.path, b.path;
    assert Stale(files, x.dir, {x}) == {y} && Stale(files, y.dir, {y}) == {x};
  }

  lemma ErasingDeletes<P(!new)>(a: Writer<P>, b: Writer<P>)
    requires UnitOf(a) == UnitOf(b) != Flat && a.path != b.path && IsJson(a.path.file) && IsJson(b.path.file)
    ensures ErasingStep(a, b, 4) && ErasingStep(a, b, 5)
  {
    var run := ErasingRun(a, b);
    var x, y := a.path, b.path;
    assert run[4].files - {y} == run[5].files;
    assert run[5].files - {x} == map[];
    assert {y} - {y} == {} && {x} - {x} == {};
  }

  /** So "each unit keeps its latest record" fails for concurrent writers: two
      writers of one unit with different names can leave none at all. */
  lemma ConcurrentWritersCanEraseBoth<P(!new)>(a: Writer<P>, b: Writer<P>)
    requires UnitOf(a) == UnitOf(b) != Flat && a.path != b.path && IsJson(a.path.file) && IsJson(b.path.file)
    ensures Init(ErasingRun(a, b)[0])
    ensures forall k: nat :: k < 6 ==> ErasingStep(a, b, k)
    ensures ErasingRun(a, b)[6].files == map[]
  {
    ErasingRenames(a, b);
    ErasingLists(a, b);
    ErasingDeletes(a, b);
  }

  // ----------------------------------------- what a caller can tell beforehand

  /** All writers of the unit write the same file. */
  ghost predicate OneName<P>(writers: seq<Writer<P>>, dir: Dir) {
    forall v, w ::
      0 <= v < |writers| && 0 <= w < |writers| && UnitOf(writers[v]) == dir && UnitOf(writers[w]) == dir ==>
      writers[v].path == writers[w].path
  }

  /** A schedule of all writers to the end, undisturbed. */
  ghost predicate Completes<P(!new)>(s: Store<P>, events: seq<Event>, last: Store<P>) {
    Runs(s, events, last) && AllFinished(last) && NoInterference(events)
  }

  /** Every complete schedule leaves the unit with its last renamer's record. */
  ghost predicate KeepsLatest<P(!new)>(s: Store<P>, dir: Dir) {
    forall events, last :: Completes(s, events, last) ==> EndsWithLatest(s.writers, events, last, dir)
  }

  ghost predicate EndsWithLatest<P>(writers: seq<Writer<P>>, events: seq<Event>, last: Store<P>, dir: Dir) {
    var r := LastRenamer(writers, events, dir);
    r.Some? && r.value < |writers| && writers[r.value].path in last.files
  }

  /** "Each unit keeps its latest record" holds of every schedule exactly when the
      unit's writers all write one file. */
  lemma EveryScheduleKeepsTheLatestExactlyWhen<P(!new)>(s: Store<P>, dir: Dir, w: nat)
    requires Idle(s) && dir != Flat && w < |s.writers| && UnitOf(s.writers[w]) == dir
    ensures KeepsLatest(s, dir) <==> OneName(s.writers, dir)
  {
    if OneName(s.writers, dir) {
      forall events, last | Completes(s, events, last) ensures EndsWithLatest(s.writers, events, last, dir) {
        OneNameStays(s, events, last, dir);
        RunsKeepWork(s, events, last);
        FinishedWritersRenamed(s, events, last, w);
      }
    } else {
      var a, b :| 0 <= a < |s.writers| && 0 <= b < |s.writers| && UnitOf(s.writers[a]) == UnitOf(s.writers[b]) == dir
                  && s.writers[a].path != s.writers[b].path;
      var events, last := ErasingSchedule(s, a, b);
      assert !EndsWithLatest(s.writers, events, last, dir);
    }
  }

  lemma SharedNameIsNotRemoved<P>(s: Store<P>, e: Event, dir: Dir, w: nat)
    requires PendingInv(s) && Enabled(s, e) && ByWriter(e) && dir != Flat
    requires OneName(s.writers, dir) && w < |s.writers| && UnitOf(s.writers[w]) == dir
    ensures !Removes(e, s.writers[w].path)
  {
  }

  lemma SharedNameSurvives<P>(s: Store<P>, e: Event, dir: Dir, w: nat)
    requires PendingInv(s) && Enabled(s, e) && ByWriter(e) && dir != Flat
    requires OneName(s.writers, dir) && w < |s.writers| && UnitOf(s.writers[w]) == dir
    requires RenamesInto(s.writers, e, dir) || s.writers[w].path in s.files
    ensures s.writers[w].path in Next(s, e).files
  {
    SharedNameIsNotRemoved(s, e, dir, w);
  }

  lemma OneNameFollowsWork<P>(a: seq<Writer<P>>, b: seq<Writer<P>>, dir: Dir)
    requires SameWork(a, b) && OneName(a, dir)
    ensures OneName(b, dir)
  {
  }

  lemma LastRenamerIsInUnit<P>(writers: seq<Writer<P>>, events: seq<Event>, dir: Dir)
    ensures var r := LastRenamer(writers, events, dir); r.Some? ==>
      r.value < |writers| && UnitOf(writers[r.value]) == dir
  {
  }

  lemma {:induction false} OneNameStays<P(!new)>(s: Store<P>, events: seq<Event>, last: Store<P>, dir: Dir)
    requires Idle(s) && dir != Flat && Runs(s, events, last) && NoInterference(events) && OneName(s.writers, dir)
    ensures LastRenamer(s.writers, events, dir).Some? ==> EndsWithLatest(s.writers, events, last, dir)
    decreases |events|
  {
    LastRenamerIsInUnit(s.writers, events, dir);
    if events != [] {
      var e, before := events[|events| - 1], events[..|events| - 1];
      assert before + [e] == events && e in events;
      assert forall x :: x in before ==> x in events;
      var mid := RunSnoc(s, before, e, last);
      RunsKeepWork(s, before, mid);
      IdleHoldsInvariants(s);
      RunsKeepPending(s, before, mid);
      OneNameStays(s, before, mid, dir);
      OneNameFollowsWork(s.writers, mid.writers, dir);
      var r := LastRenamer(s.writers, events, dir);
      if r.Some? {
        SharedNameSurvives(mid, e, dir, r.value);
      }
    }
  }

  lemma {:induction false} RunConcat<P(!new)>(s: Store<P>, a: seq<Event>, mid: Store<P>, b: seq<Event>, last: Store<P>)
    requires Runs(s, a, mid) && Runs(mid, b, last)
    ensures Runs(s, a + b, last)
    decreases |a|
  {
    if a == [] {
      assert a + b == b;
    } else {
      assert (a + b)[1..] == a[1..] + b;
      RunConcat(Next(s, a[0]), a[1..], mid, b, last);
    }
  }

  /** Steps a writer has to go, not counting its deletions. */
  function Rank(phase: Phase): nat {
    match phase
    case Writing => 5
    case Renamed => 4
    case Sweeping(_) => 3
    case Swept => 2
    case SweepingFlat(_) => 1
    case Finished => 0
  }

  function PendingOf(phase: Phase): set<Name> {
    if phase.Sweeping? || phase.SweepingFlat? then phase.pending else {}
  }

  /** A writer that is not done can always take a step towards its end. */
  lemma OwnStep<P>(s: Store<P>, w: nat) returns (e: Event)
    requires w < |s.writers| && s.writers[w].phase != Finished
    ensures ByWriter(e) && e.w == w && Enabled(s, e) && (e.Rename? <==> s.writers[w].phase == Writing)
    ensures var was, now := s.writers[w].phase, Next(s, e).writers[w].phase;
      Rank(now) < Rank(was) || (Rank(now) == Rank(was) && |PendingOf(now)| < |PendingOf(was)|)
    ensures |Next(s, e).writers| == |s.writers|
    ensures forall v :: 0 <= v < |s.writers| && v != w ==> Next(s, e).writers[v] == s.writers[v]
  {
    match s.writers[w].phase {
      case Writing => e := Rename(w);
      case Renamed => e := List(w);
      case Sweeping(pending) =>
        if pending == {} {
          e := EndSweep(w);
        } else {
          var victim :| victim in pending;
          e := Delete(w, victim);
        }
      case Swept => e := ListFlat(w);
      case SweepingFlat(pending) =>
        if pending == {} {
          e := End(w);
        } else {
          var victim :| victim in pending;
          e := DeleteFlat(w, victim);
        }
    }
  }

  /** Every event is by a writer in `who`, and only those still writing rename. */
  ghost predicate Only<P>(events: seq<Event>, s: Store<P>, who: set<nat>) {
    forall e :: e in events ==>
      ByWriter(e) && e.w in who && e.w < |s.writers| && (e.Rename? ==> s.writers[e.w].phase == Writing)
  }

  lemma {:induction false} FinishWriter<P(!new)>(s: Store<P>, w: nat) returns (events: seq<Event>, last: Store<P>)
    requires w < |s.writers|
    ensures Runs(s, events, last) && Only(events, s, {w})
    ensures |last.writers| == |s.writers| && last.writers[w].phase == Finished
    ensures forall v :: 0 <= v < |s.writers| && v != w ==> last.writers[v] == s.writers[v]
    decreases Rank(s.writers[w].phase), |PendingOf(s.writers[w].phase)|
  {
    events, last := [], s;
    if s.writers[w].phase != Finished {
      var e := OwnStep(s, w);
      var rest;
      rest, last := FinishWriter(Next(s, e), w);
      events := [e] + rest;
      assert events[1..] == rest;
      forall x | x in events ensures ByWriter(x) && x.w in {w} && (x.Rename? ==> s.writers[x.w].phase == Writing) {
        if x != e {
          assert x in rest;
        }
      }
    }
  }

  /** Runs the first `n` writers to the end, those in `spared` aside. */
  lemma {:induction false} FinishAll<P(!new)>(s: Store<P>, n: nat, spared: set<nat>)
    returns (events: seq<Event>, last: Store<P>)
    requires n <= |s.writers|
    ensures Runs(s, events, last) && |last.writers| == |s.writers|
    ensures NoInterference(events) && forall e :: e in events ==>
      e.w !in spared && e.w < |s.writers| && (e.Rename? ==> s.writers[e.w].phase == Writing)
    ensures forall v :: 0 <= v < n && v !in spared ==> last.writers[v].phase == Finished
    ensures forall v :: 0 <= v < |s.writers| && (v in spared || n <= v) ==> last.writers[v] == s.writers[v]
  {
    events, last := [], s;
    if n > 0 {
      var first, mid := FinishAll(s, n - 1, spared);
      events, last := first, mid;
      if n - 1 !in spared {
        var more, end := FinishWriter(mid, n - 1);
        RunConcat(s, first, mid, more, end);
        events, last := first + more, end;
      }
    }
  }

  lemma {:induction false} LastRenamerSkips<P>(writers: seq<Writer<P>>, a: seq<Event>, b: seq<Event>, dir: Dir)
    requires NoRenameInto(writers, b, dir)
    ensures LastRenamer(writers, a + b, dir) == LastRenamer(writers, a, dir)
    decreases |b|
  {
    if b == [] {
      assert a + b == a;
    } else {
      var init, e := b[..|b| - 1], b[|b| - 1];
      assert e in b && !RenamesInto(writers, e, dir);
      assert (a + b)[..|a + b| - 1] == a + init;
      assert forall x :: x in init ==> x in b;
      LastRenamerSkips(writers, a, init, dir);
    }
  }

  /** Two renames one after the other leave the second record threatened. */
  lemma RenameBoth<P(!new)>(s: Store<P>, a: nat, b: nat) returns (last: Store<P>)
    requires a < |s.writers| && b < |s.writers| && a != b
    requires s.writers[a].phase == s.writers[b].phase == Writing
    requires UnitOf(s.writers[a]) == UnitOf(s.writers[b]) && s.writers[a].path != s.writers[b].path
    ensures Runs(s, [Rename(a), Rename(b)], last) && |last.writers| == |s.writers|
    ensures s.writers[b].path in last.files && Threatened(last, s.writers[b].path)
    ensures last.writers[a].phase == last.writers[b].phase == Renamed
    ensures forall v :: 0 <= v < |s.writers| && v != a && v != b ==> last.writers[v] == s.writers[v]
  {
    var mid := Next(s, Rename(a));
    last := Next(mid, Rename(b));
    assert [Rename(a), Rename(b)][1..] == [Rename(b)] && [Rename(b)][1..] == [];
    assert Runs(mid, [Rename(b)], last);
    assert Threatens(last.writers[a], s.writers[b].path);
  }

  /** A run up to two clashing renames, and the end it then must come to. */
  lemma SweepsErase<P(!new)>(s: Store<P>, both: Store<P>, name: Name) returns (rest: seq<Event>, last: Store<P>)
    requires PendingInv(both) && SameWork(s.writers, both.writers)
    requires name in both.files && name.dir != Flat && IsJson(name.file) && Threatened(both, name)
    requires forall w :: 0 <= w < |both.writers| ==> both.writers[w].phase != Writing
    ensures Runs(both, rest, last) && AllFinished(last) && NoInterference(rest)
    ensures NoRenameInto(s.writers, rest, name.dir) && name !in last.files
  {
    rest, last := FinishAll(both, |both.writers|, {});
    LatestRecordSurvivesExactlyWhen(both, rest, last, name);
    LaterRenamesFollowWork(both.writers, s.writers, rest, name.dir);
  }

  /** All others first, then the two renames. */
  lemma RunToBothRenames<P(!new)>(s: Store<P>, a: nat, b: nat) returns (first: seq<Event>, both: Store<P>)
    requires Idle(s) && a < |s.writers| && b < |s.writers|
    requires UnitOf(s.writers[a]) == UnitOf(s.writers[b]) && s.writers[a].path != s.writers[b].path
    ensures Runs(s, first + [Rename(a), Rename(b)], both) && NoInterference(first)
    ensures s.writers[b].path in both.files && Threatened(both, s.writers[b].path)
    ensures |both.writers| == |s.writers| && forall w :: 0 <= w < |both.writers| ==> both.writers[w].phase != Writing
  {
    var before;
    first, before := FinishAll(s, |s.writers|, {a, b});
    both := RenameBoth(before, a, b);
    RunConcat(s, first, before, [Rename(a), Rename(b)], both);
    forall w | 0 <= w < |both.writers| ensures both.writers[w].phase != Writing {
      assert w !in {a, b} ==> before.writers[w].phase == Finished;
    }
  }

  /** Then the sweeps: the last record goes. */
  lemma ErasingSchedule<P(!new)>(s: Store<P>, a: nat, b: nat) returns (events: seq<Event>, last: Store<P>)
    requires Idle(s) && a < |s.writers| && b < |s.writers|
    requires UnitOf(s.writers[a]) == UnitOf(s.writers[b]) != Flat && s.writers[a].path != s.writers[b].path
    ensures Completes(s, events, last)
    ensures LastRenamer(s.writers, events, UnitOf(s.writers[b])) == Some(b) && s.writers[b].path !in last.files
  {
    var first, both := RunToBothRenames(s, a, b);
    var start := first + [Rename(a), Rename(b)];
    RunsKeepWork(s, start, both);
    IdleHoldsInvariants(s);
    RunsKeepPending(s, start, both);
    var rest, end := SweepsErase(s, both, s.writers[b].path);
    events, last := start + rest, end;
    RunConcat(s, start, both, rest, last);
    LastRenamerSkips(s.writers, start, rest, UnitOf(s.writers[b]));
    assert start == (first + [Rename(a)]) + [Rename(b)];
    LastOfSnoc(s.writers, first + [Rename(a)], b);
  }

  lemma LastOfSnoc<P>(writers: seq<Writer<P>>, events: seq<Event>, b: nat)
    requires b < |writers|
    ensures LastRenamer(writers, events + [Rename(b)], UnitOf(writers[b])) == Some(b)
  {
  }
}
