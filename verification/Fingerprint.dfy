/**
 Stat-only source fingerprints over a file system whose stamps are coarse.

 The cache identifies a settled file by what `stat` says and reads its bytes only
 when a stamp is recent. A clock that never runs backwards stamps every change,
 rounded down to the file system's granularity. The question is whether equal
 fingerprints of one path mean equal bytes, even when files change during a look.
 */
module Fingerprint {
  import opened Common
  import opened CacheKey

  /** Nanoseconds. */
  const RACY_MTIME_WINDOW: nat := 2_000_000_000

  /** Which stamps `stat` offers: Unix an inode and a change time, Windows a
      creation time, other platforms neither. */
  datatype Platform = Unix | Windows | Other

  /** Where `now` comes from: the modified time of a file just written to the
      same file system, or, as a fallback, the exact clock. */
  datatype Clock = Probe | Exact

  /** `mtime` may be set to anything, before the epoch too; `ctime` and `birth`
      are stamped by the file system alone. */
  datatype Inode = Inode(bytes: Bytes, mtime: int, ctime: U128, birth: U128)

  /** Several paths may name one inode; an inode may outlive its paths. */
  datatype Fs = Fs(clock: U128, inodes: map<U64, Inode>, paths: map<Bytes, U64>)

  datatype Op =
    | Advance(to: U128)
    | Create(id: U64, bytes: Bytes, mtime: int)
    | Write(id: U64, bytes: Bytes, mtime: int)
    | SetTimes(id: U64, mtime: int)
    | Name(path: Bytes, id: U64)
    | Unlink(path: Bytes)
    | Reclaim(id: U64)

  type Granularity = g: int | 1 <= g < TWO_64 witness 1

  function Stamp(t: U128, g: Granularity): U128 {
    t - t % g
  }

  predicate Allowed(fs: Fs, op: Op) {
    match op
    case Advance(to) => fs.clock <= to
    case Create(id, _, mtime) => id !in fs.inodes && mtime < TWO_128
    case Write(id, _, mtime) => id in fs.inodes && mtime < TWO_128
    case SetTimes(id, mtime) => id in fs.inodes && mtime < TWO_128
    case Name(_, id) => id in fs.inodes
    case Unlink(_) => true
    case Reclaim(id) => id !in fs.paths.Values
  }

  function Apply(fs: Fs, op: Op, g: Granularity): Fs
    requires Allowed(fs, op)
  {
    var stamp := Stamp(fs.clock, g);
    match op
    case Advance(to) => fs.(clock := to)
    case Create(id, bytes, mtime) => fs.(inodes := fs.inodes[id := Inode(bytes, mtime, stamp, stamp)])
    case Write(id, bytes, mtime) => fs.(inodes := fs.inodes[id := Inode(bytes, mtime, stamp, fs.inodes[id].birth)])
    case SetTimes(id, mtime) => fs.(inodes := fs.inodes[id := fs.inodes[id].(mtime := mtime, ctime := stamp)])
    case Name(path, id) => fs.(paths := fs.paths[path := id])
    case Unlink(path) => fs.(paths := fs.paths - {path})
    case Reclaim(id) => fs.(inodes := fs.inodes - {id})
  }

  predicate WellFormed(fs: Fs) {
    && fs.paths.Values <= fs.inodes.Keys
    && forall id :: id in fs.inodes ==> fs.inodes[id].mtime < TWO_128
  }

  ghost predicate Steps(fs: Fs, next: Fs, g: Granularity) {
    exists op :: Allowed(fs, op) && next == Apply(fs, op, g)
  }

  ghost predicate IsRun(run: seq<Fs>, g: Granularity) {
    && run != []
    && WellFormed(run[0])
    && forall k :: 0 <= k < |run| - 1 ==> Steps(run[k], run[k + 1], g)
  }

  // ----------------------------------------------------------- fingerprints

  function Racy(stamp: U128, now: U128): bool {
    (if now < stamp then 0 else now - stamp) < RACY_MTIME_WINDOW
  }

  function ModifiedNs(node: Inode): Option<U128>
    requires node.mtime < TWO_128
  {
    if node.mtime < 0 then None else Some(node.mtime)
  }

  /** `from_absolute`: size and time from the open handle, then the bytes read from
      it, which may be others by then. */
  function Hashed(path: Bytes, held: Inode, bytes: Bytes): SourceFingerprint
    requires held.mtime < TWO_128
  {
    SourceFingerprint(path, |held.bytes|, ModifiedNs(held), None, None, StableHexHash(bytes))
  }

  function StatOnly(platform: Platform, path: Bytes, id: U64, node: Inode): SourceFingerprint
    requires 0 <= node.mtime < TWO_128
  {
    var fileId := if platform == Unix then Some(id) else None;
    var change := match platform
      case Unix => Some(node.ctime)
      case Windows => Some(node.birth)
      case Other => None;
    SourceFingerprint(path, |node.bytes|, Some(node.mtime), fileId, change, [])
  }

  /** `absent`: the path was probed and named nothing; "absent" is not hex. */
  function Absent(path: Bytes): SourceFingerprint {
    SourceFingerprint(path, 0, None, None, None, [0x61, 0x62, 0x73, 0x65, 0x6e, 0x74])
  }

  /** What `stat` said suffices. */
  predicate Settled(platform: Platform, node: Inode, now: U128)
    requires node.mtime < TWO_128
  {
    && node.mtime >= 0
    && !Racy(node.mtime, now)
    && (platform == Unix ==> !Racy(node.ctime, now))
  }

  /** `from_absolute_stat_at`, given what a handle would find. */
  function FromStat(
    platform: Platform, path: Bytes, id: U64, node: Inode, now: U128, held: Inode, bytes: Bytes): SourceFingerprint
    requires node.mtime < TWO_128 && held.mtime < TWO_128
  {
    if Settled(platform, node, now) then StatOnly(platform, path, id, node) else Hashed(path, held, bytes)
  }

  /** The kinds never meet: a hash is sixteen bytes, a stat-only fingerprint has
      none, and "absent" is neither. */
  lemma KindsNeverMeet(platform: Platform, p: Bytes, q: Bytes, id: U64, a: Inode, b: Inode, bytes: Bytes)
    requires 0 <= a.mtime < TWO_128 && b.mtime < TWO_128
    ensures StatOnly(platform, p, id, a) != Hashed(q, b, bytes)
    ensures Absent(p) != Hashed(q, b, bytes) && Absent(p) != StatOnly(platform, q, id, a)
  {
    assert |StableHexHash(bytes)| == 16;
  }

  /** `stat` alone is trusted, and no byte read, exactly when the modified time is
      known and two seconds old, and on Unix the change time is too. */
  lemma StatSufficesExactlyWhen(
    platform: Platform, path: Bytes, id: U64, node: Inode, now: U128, held: Inode, bytes: Bytes)
    requires node.mtime < TWO_128 && held.mtime < TWO_128
    ensures FromStat(platform, path, id, node, now, held, bytes).contentHash == [] <==>
      && 0 <= node.mtime && node.mtime + 2_000_000_000 <= now
      && (platform == Unix ==> node.ctime + 2_000_000_000 <= now)
  {
    assert |StableHexHash(bytes)| == 16;
  }

  /** What a fingerprint then says of the file: the inode and the change time on
      Unix, the creation time on Windows. */
  lemma StatOnlyRecords(path: Bytes, id: U64, node: Inode)
    requires 0 <= node.mtime < TWO_128
    ensures forall platform :: StatOnly(platform, path, id, node).path == path
    ensures forall platform :: StatOnly(platform, path, id, node).size == |node.bytes|
    ensures forall platform :: StatOnly(platform, path, id, node).modifiedNs == Some(node.mtime)
    ensures StatOnly(Unix, path, id, node).fileId == Some(id)
    ensures StatOnly(Unix, path, id, node).changeNs == Some(node.ctime)
    ensures StatOnly(Windows, path, id, node).fileId == None
    ensures StatOnly(Windows, path, id, node).changeNs == Some(node.birth)
    ensures StatOnly(Other, path, id, node).fileId == StatOnly(Other, path, id, node).changeNs == None
  {
  }

  /** A hashed one records the handle's size and time and the hash of what was read. */
  lemma HashedRecords(path: Bytes, held: Inode, bytes: Bytes)
    requires held.mtime < TWO_128
    ensures Hashed(path, held, bytes).path == path
    ensures Hashed(path, held, bytes).size == |held.bytes|
    ensures held.mtime < 0 ==> Hashed(path, held, bytes).modifiedNs == None
    ensures held.mtime >= 0 ==> Hashed(path, held, bytes).modifiedNs == Some(held.mtime)
    ensures Hashed(path, held, bytes).fileId == None && Hashed(path, held, bytes).changeNs == None
    ensures Hashed(path, held, bytes).contentHash == StableHexHash(bytes)
  {
  }

  // ---------------------------------------------------------------- the claim

  /** When a look reads the clock, stats the path, opens it, asks the handle for its
      metadata and reads from it; a look that trusts the `stat` ends there. */
  datatype Look = Look(now: nat, stat: nat, open: nat, meta: nat, read: nat)

  /** Two looks at one path during one run. */
  datatype Looks = Looks(run: seq<Fs>, path: Bytes, first: Look, second: Look)

  function Reading(clock: Clock, fs: Fs, g: Granularity): U128 {
    match clock
    case Probe => Stamp(fs.clock, g)
    case Exact => fs.clock
  }

  /** The file the path named when it was opened. */
  function Handle(run: seq<Fs>, path: Bytes, look: Look): U64
    requires look.open < |run| && path in run[look.open].paths
  {
    run[look.open].paths[path]
  }

  /** The path is there to stat and to open, and an open file is not reclaimed. */
  ghost predicate ValidLook(run: seq<Fs>, path: Bytes, look: Look) {
    && look.now <= look.stat <= look.open <= look.meta <= look.read < |run|
    && path in run[look.stat].paths && path in run[look.open].paths
    && forall k :: look.open <= k <= look.read ==> Handle(run, path, look) in run[k].inodes
  }

  ghost predicate ValidLooks(l: Looks, g: Granularity) {
    IsRun(l.run, g) && ValidLook(l.run, l.path, l.first) && ValidLook(l.run, l.path, l.second)
  }

  /** What the `stat` of a look finds, and what its handle would find. */
  datatype Found = Found(id: U64, node: Inode, held: Inode, bytes: Bytes)

  ghost predicate WellFound(found: Found) {
    found.node.mtime < TWO_128 && found.held.mtime < TWO_128
  }

  ghost function FoundBy(run: seq<Fs>, g: Granularity, path: Bytes, look: Look): (found: Found)
    requires IsRun(run, g) && ValidLook(run, path, look)
    ensures WellFound(found)
    ensures run[look.stat].paths[path] == found.id && found.id in run[look.stat].inodes
    ensures run[look.stat].inodes[found.id] == found.node
  {
    RunsStayWellFormed(run, g, look.stat);
    RunsStayWellFormed(run, g, look.meta);
    var id, handle := run[look.stat].paths[path], Handle(run, path, look);
    assert id in run[look.stat].paths.Values;
    Found(id, run[look.stat].inodes[id], run[look.meta].inodes[handle], run[look.read].inodes[handle].bytes)
  }

  ghost function FingerprintOf(platform: Platform, path: Bytes, found: Found, now: U128): SourceFingerprint
    requires WellFound(found)
  {
    FromStat(platform, path, found.id, found.node, now, found.held, found.bytes)
  }

  /** The bytes a fingerprint stands for: those read, or those there at the `stat`. */
  ghost function BytesSeen(platform: Platform, found: Found, now: U128): Bytes
    requires WellFound(found)
  {
    if Settled(platform, found.node, now) then found.node.bytes else found.bytes
  }

  /** As many bytes were seen as the fingerprint says. */
  ghost predicate Whole(platform: Platform, found: Found, now: U128)
    requires WellFound(found)
  {
    Settled(platform, found.node, now) || |found.bytes| == |found.held.bytes|
  }

  /** The same bytes, or bytes that collide under FNV-1a; in two looks that read the
      length they state only ones of one length can. */
  ghost predicate SameSeen(platform: Platform, a: Found, aNow: U128, b: Found, bNow: U128)
    requires WellFound(a) && WellFound(b)
  {
    var x, y := BytesSeen(platform, a, aNow), BytesSeen(platform, b, bNow);
    || x == y
    || (&& StableHexHash(x) == StableHexHash(y)
        && (Whole(platform, a, aNow) && Whole(platform, b, bNow) ==> |x| == |y|))
  }

  ghost predicate EqualLooks(l: Looks, g: Granularity, platform: Platform, clock: Clock)
    requires ValidLooks(l, g)
  {
    var a, b := FoundBy(l.run, g, l.path, l.first), FoundBy(l.run, g, l.path, l.second);
    FingerprintOf(platform, l.path, a, Reading(clock, l.run[l.first.now], g)) ==
    FingerprintOf(platform, l.path, b, Reading(clock, l.run[l.second.now], g))
  }

  ghost predicate SameBytes(l: Looks, g: Granularity, platform: Platform, clock: Clock)
    requires ValidLooks(l, g)
  {
    var a, b := FoundBy(l.run, g, l.path, l.first), FoundBy(l.run, g, l.path, l.second);
    SameSeen(platform, a, Reading(clock, l.run[l.first.now], g), b, Reading(clock, l.run[l.second.now], g))
  }

  /** Over every run, equal fingerprints stand for equal bytes, or for bytes that
      collide under FNV-1a. */
  ghost predicate Sound(platform: Platform, clock: Clock, g: Granularity) {
    forall l: Looks :: ValidLooks(l, g) && EqualLooks(l, g, platform, clock) ==>
      SameBytes(l, g, platform, clock)
  }

  // ---------------------------------------------------------------- proofs

  lemma StampIsMonotone(s: U128, t: U128, g: Granularity)
    requires s <= t
    ensures Stamp(s, g) <= Stamp(t, g)
  {
    var a := StampIsMultiple(s, g);
    var b := StampIsMultiple(t, g);
    if a > b {
      MulIsMonotone(g, b + 1, a);
      MulByNext(g, b);
    } else {
      MulIsMonotone(g, a, b);
    }
  }

  lemma StampIsMultiple(t: U128, g: Granularity) returns (q: nat)
    ensures Stamp(t, g) == g * q <= t < g * q + g
  {
    q := t / g;
  }

  lemma StampBelowGranularity(t: U128, g: Granularity)
    requires t < g
    ensures Stamp(t, g) == 0
  {
    assert t / g == 0;
    assert t == g * (t / g) + t % g;
  }

  lemma {:induction false} RunsStayWellFormed(run: seq<Fs>, g: Granularity, k: nat)
    requires IsRun(run, g) && k < |run|
    ensures WellFormed(run[k])
  {
    if k > 0 {
      RunsStayWellFormed(run, g, k - 1);
      assert Steps(run[k - 1], run[k], g);
    }
  }

  lemma {:induction false} ClockNeverRunsBack(run: seq<Fs>, g: Granularity, i: nat, j: nat)
    requires IsRun(run, g) && i <= j < |run|
    ensures run[i].clock <= run[j].clock
  {
    if i < j {
      ClockNeverRunsBack(run, g, i, j - 1);
      assert Steps(run[j - 1], run[j], g);
    }
  }

  /** An inode whose change time lies before the current stamp keeps its bytes
      for as long as it keeps that change time, however ids are reused. */
  lemma {:induction false} OldStampFreezesBytes(run: seq<Fs>, g: Granularity, i: nat, j: nat, id: U64)
    requires IsRun(run, g) && i <= j < |run|
    requires id in run[i].inodes && run[i].inodes[id].ctime < Stamp(run[i].clock, g)
    ensures id in run[j].inodes ==>
              || run[j].inodes[id].ctime > run[i].inodes[id].ctime
              || (&& run[j].inodes[id].ctime == run[i].inodes[id].ctime
                  && run[j].inodes[id].bytes == run[i].inodes[id].bytes)
  {
    if i < j {
      OldStampFreezesBytes(run, g, i, j - 1, id);
      ClockNeverRunsBack(run, g, i, j - 1);
      StampIsMonotone(run[i].clock, run[j - 1].clock, g);
      assert Steps(run[j - 1], run[j], g);
    }
  }

  lemma SettledMeansOldStamp(run: seq<Fs>, g: Granularity, clock: Clock, i: nat, now: nat, ctime: U128)
    requires IsRun(run, g) && now <= i < |run|
    requires clock == Probe || g <= RACY_MTIME_WINDOW
    requires !Racy(ctime, Reading(clock, run[now], g))
    ensures ctime < Stamp(run[i].clock, g)
  {
    ClockNeverRunsBack(run, g, now, i);
    StampIsMonotone(run[now].clock, run[i].clock, g);
  }

  /** Two settled looks by `stat` alone, in the order of the run. */
  lemma SettledLooksAgree(l: Looks, g: Granularity, clock: Clock)
    requires ValidLooks(l, g) && l.first.stat <= l.second.stat
    requires clock == Probe || g <= RACY_MTIME_WINDOW
    requires EqualLooks(l, g, Unix, clock)
    requires Settled(Unix, FoundBy(l.run, g, l.path, l.first).node, Reading(clock, l.run[l.first.now], g))
    requires Settled(Unix, FoundBy(l.run, g, l.path, l.second).node, Reading(clock, l.run[l.second.now], g))
    ensures FoundBy(l.run, g, l.path, l.first).node.bytes == FoundBy(l.run, g, l.path, l.second).node.bytes
  {
    var a := FoundBy(l.run, g, l.path, l.first);
    SettledMeansOldStamp(l.run, g, clock, l.first.stat, l.first.now, a.node.ctime);
    OldStampFreezesBytes(l.run, g, l.first.stat, l.second.stat, a.id);
  }

  /** Equal fingerprints are of one kind; hashed ones have hashed what they saw. */
  lemma EqualFingerprints(platform: Platform, path: Bytes, a: Found, aNow: U128, b: Found, bNow: U128)
    requires WellFound(a) && WellFound(b)
    requires FingerprintOf(platform, path, a, aNow) == FingerprintOf(platform, path, b, bNow)
    ensures Settled(platform, a.node, aNow) <==> Settled(platform, b.node, bNow)
    ensures !Settled(platform, a.node, aNow) ==> SameSeen(platform, a, aNow, b, bNow)
  {
    assert |StableHexHash(a.bytes)| == 16 && |StableHexHash(b.bytes)| == 16;
  }

  lemma OrderedLooksAgree(l: Looks, g: Granularity, clock: Clock)
    requires ValidLooks(l, g) && l.first.stat <= l.second.stat
    requires clock == Probe || g <= RACY_MTIME_WINDOW
    requires EqualLooks(l, g, Unix, clock)
    ensures SameBytes(l, g, Unix, clock)
  {
    var a, b := FoundBy(l.run, g, l.path, l.first), FoundBy(l.run, g, l.path, l.second);
    var aNow, bNow := Reading(clock, l.run[l.first.now], g), Reading(clock, l.run[l.second.now], g);
    EqualFingerprints(Unix, l.path, a, aNow, b, bNow);
    if Settled(Unix, a.node, aNow) {
      SettledLooksAgree(l, g, clock);
    }
  }

  lemma UnixIsSound(clock: Clock, g: Granularity)
    requires clock == Probe || g <= RACY_MTIME_WINDOW
    ensures Sound(Unix, clock, g)
  {
    forall l: Looks | ValidLooks(l, g) && EqualLooks(l, g, Unix, clock) ensures SameBytes(l, g, Unix, clock) {
      if l.first.stat <= l.second.stat {
        OrderedLooksAgree(l, g, clock);
      } else {
        OrderedLooksAgree(Looks(l.run, l.path, l.second, l.first), g, clock);
      }
    }
  }

  /** A one-byte file rewritten once, its modified time put back to the epoch:
      at time 0 it is created, at `late` looked at, rewritten and looked at. */
  function RewriteRun(late: U128, g: Granularity): seq<Fs> {
    var born := Fs(0, map[7 := Inode([1], 0, 0, 0)], map[[] := 7]);
    var aged := born.(clock := late);
    [born, aged, aged.(inodes := aged.inodes[7 := Inode([2], 0, Stamp(late, g), 0)])]
  }

  lemma RewriteIsARun(late: U128, g: Granularity)
    ensures IsRun(RewriteRun(late, g), g)
  {
    var run := RewriteRun(late, g);
    assert run[0].paths.Values <= run[0].inodes.Keys;
    assert Allowed(run[0], Advance(late)) && run[1] == Apply(run[0], Advance(late), g);
    var write := Write(7, [2], 0);
    assert Allowed(run[1], write) && run[2] == Apply(run[1], write, g);
    assert Steps(run[0], run[1], g) && Steps(run[1], run[2], g);
  }

  /** A look done at one moment. */
  function LookAt(at: nat): Look {
    Look(at, at, at, at, at)
  }

  function RewriteLooks(late: U128, g: Granularity): Looks {
    Looks(RewriteRun(late, g), [], LookAt(1), LookAt(2))
  }

  lemma RewriteLooksAreValid(late: U128, g: Granularity)
    ensures var l := RewriteLooks(late, g);
      && ValidLooks(l, g)
      && l.run[1].clock == l.run[2].clock == late
      && FoundBy(l.run, g, l.path, l.first).id == FoundBy(l.run, g, l.path, l.second).id
      && FoundBy(l.run, g, l.path, l.first).node == Inode([1], 0, 0, 0)
      && FoundBy(l.run, g, l.path, l.second).node == Inode([2], 0, Stamp(late, g), 0)
  {
    RewriteIsARun(late, g);
  }

  lemma SettledSinceTheEpoch(platform: Platform, path: Bytes, a: Found, b: Found, now: U128)
    requires a.id == b.id && a.node.mtime == b.node.mtime == 0 && a.node.birth == b.node.birth
    requires |a.node.bytes| == |b.node.bytes| && WellFound(a) && WellFound(b)
    requires now >= RACY_MTIME_WINDOW && (platform == Unix ==> a.node.ctime == b.node.ctime == 0)
    ensures FingerprintOf(platform, path, a, now) == FingerprintOf(platform, path, b, now)
    ensures BytesSeen(platform, a, now) == a.node.bytes && BytesSeen(platform, b, now) == b.node.bytes
  {
    assert !Racy(0, now);
  }

  lemma EqualLooksOverOtherBytes(l: Looks, g: Granularity, platform: Platform, clock: Clock, late: U128)
    requires ValidLooks(l, g) && l.run[l.first.now].clock == l.run[l.second.now].clock == late
    requires Reading(clock, Fs(late, map[], map[]), g) >= RACY_MTIME_WINDOW
    requires platform == Unix ==> Stamp(late, g) == 0
    requires var a, b := FoundBy(l.run, g, l.path, l.first), FoundBy(l.run, g, l.path, l.second);
      && a.id == b.id
      && a.node.mtime == b.node.mtime == a.node.birth == b.node.birth == a.node.ctime == 0
      && b.node.ctime == Stamp(late, g)
      && |a.node.bytes| == |b.node.bytes| && StableHexHash(a.node.bytes) != StableHexHash(b.node.bytes)
    ensures EqualLooks(l, g, platform, clock) && !SameBytes(l, g, platform, clock)
  {
    var a, b := FoundBy(l.run, g, l.path, l.first), FoundBy(l.run, g, l.path, l.second);
    SettledSinceTheEpoch(platform, l.path, a, b, Reading(clock, Fs(late, map[], map[]), g));
  }

  /** Where the change stamp need not move on a rewrite, two looks, each done at one
      moment, are equal over different bytes. */
  lemma RewriteGoesUnseen(platform: Platform, clock: Clock, g: Granularity, late: U128)
    requires Reading(clock, Fs(late, map[], map[]), g) >= RACY_MTIME_WINDOW
    requires platform == Unix ==> Stamp(late, g) == 0
    ensures !Sound(platform, clock, g)
  {
    var x, y: Bytes := [1], [2];
    RewriteLooksAreValid(late, g);
    SingleBytesDoNotCollide(1, 2, x, y);
    EqualLooksOverOtherBytes(RewriteLooks(late, g), g, platform, clock, late);
  }

  lemma SingleBytesDoNotCollide(x: Byte, y: Byte, a: Bytes, b: Bytes)
    requires x != y && a == [x] && b == [y]
    ensures a != b && StableHexHash(a) != StableHexHash(b)
  {
    OneByteApartNeverCollides([], x, y, []);
    assert [] + [x] + [] == a && [] + [y] + [] == b;
    assert a[0] != b[0];
  }

  /** Exactly when the scheme is sound: on Unix, judged against the file system's
      own clock whatever its granularity, or against an exact clock when the
      granularity is at most the window. A change stamp a rewrite does not move,
      as on the other platforms, never suffices. */
  lemma SoundExactlyWhen(platform: Platform, clock: Clock, g: Granularity)
    ensures Sound(platform, clock, g) <==> platform == Unix && (clock == Probe || g <= RACY_MTIME_WINDOW)
  {
    if platform == Unix && (clock == Probe || g <= RACY_MTIME_WINDOW) {
      UnixIsSound(clock, g);
    } else if platform == Unix {
      StampBelowGranularity(RACY_MTIME_WINDOW, g);
      RewriteGoesUnseen(platform, clock, g, RACY_MTIME_WINDOW);
    } else {
      RewriteGoesUnseen(platform, clock, g, RACY_MTIME_WINDOW + g);
    }
  }

  // ------------------------------------------- what the modified time is good for

  // On platforms without a change time the modified time is all there is. It
  // suffices where nobody sets it and nothing older is moved into the path.

  /** Writing stamps the modified time with the file system's clock; nobody sets it. */
  predicate Stamps(fs: Fs, op: Op, g: Granularity) {
    match op
    case Create(_, _, mtime) => mtime == Stamp(fs.clock, g)
    case Write(_, _, mtime) => mtime == Stamp(fs.clock, g)
    case SetTimes(_, _) => false
    case _ => true
  }

  ghost predicate HonestStep(fs: Fs, next: Fs, g: Granularity) {
    exists op :: Allowed(fs, op) && Stamps(fs, op, g) && next == Apply(fs, op, g)
  }

  ghost predicate Honest(run: seq<Fs>, g: Granularity) {
    forall k :: 0 <= k < |run| - 1 ==> HonestStep(run[k], run[k + 1], g)
  }

  /** At its later look the path names the same inode or one made since the earlier. */
  ghost predicate KeepsFile(l: Looks, g: Granularity)
    requires ValidLooks(l, g)
  {
    var (a, b) := if l.first.stat <= l.second.stat then (l.first, l.second) else (l.second, l.first);
    var was, now := FoundBy(l.run, g, l.path, a).id, FoundBy(l.run, g, l.path, b).id;
    now == was || now !in l.run[a.stat].inodes
  }

  /** Sound where modified times are honest and the path keeps its file. */
  ghost predicate SoundWhenHonest(platform: Platform, clock: Clock, g: Granularity) {
    forall l: Looks ::
      ValidLooks(l, g) && Honest(l.run, g) && KeepsFile(l, g) && EqualLooks(l, g, platform, clock) ==>
      SameBytes(l, g, platform, clock)
  }

  /** A file whose modified time lies before the current stamp keeps its bytes for
      as long as it keeps that time; a file made since has a later one. */
  lemma {:induction false} OldTimeFreezesBytes(run: seq<Fs>, g: Granularity, i: nat, j: nat, id: U64, time: int)
    requires IsRun(run, g) && Honest(run, g) && i <= j < |run| && time < Stamp(run[i].clock, g)
    requires id in run[i].inodes ==> run[i].inodes[id].mtime == time
    ensures id in run[j].inodes ==>
              || run[j].inodes[id].mtime > time
              || (&& run[j].inodes[id].mtime == time
                  && id in run[i].inodes && run[j].inodes[id].bytes == run[i].inodes[id].bytes)
  {
    if i < j {
      OldTimeFreezesBytes(run, g, i, j - 1, id, time);
      ClockNeverRunsBack(run, g, i, j - 1);
      StampIsMonotone(run[i].clock, run[j - 1].clock, g);
      assert HonestStep(run[j - 1], run[j], g);
    }
  }

  lemma OrderedHonestLooksAgree(l: Looks, g: Granularity, platform: Platform, clock: Clock)
    requires ValidLooks(l, g) && l.first.stat <= l.second.stat && Honest(l.run, g) && KeepsFile(l, g)
    requires clock == Probe || g <= RACY_MTIME_WINDOW
    requires EqualLooks(l, g, platform, clock)
    ensures SameBytes(l, g, platform, clock)
  {
    var a, b := FoundBy(l.run, g, l.path, l.first), FoundBy(l.run, g, l.path, l.second);
    var aNow, bNow := Reading(clock, l.run[l.first.now], g), Reading(clock, l.run[l.second.now], g);
    EqualFingerprints(platform, l.path, a, aNow, b, bNow);
    if Settled(platform, a.node, aNow) {
      SettledMeansOldStamp(l.run, g, clock, l.first.stat, l.first.now, a.node.mtime);
      OldTimeFreezesBytes(l.run, g, l.first.stat, l.second.stat, b.id, a.node.mtime);
      assert a.node.mtime == b.node.mtime;
    }
  }

  lemma SwappedLooks(l: Looks, g: Granularity, platform: Platform, clock: Clock)
    requires ValidLooks(l, g) && KeepsFile(l, g) && l.second.stat < l.first.stat
    ensures var swapped := Looks(l.run, l.path, l.second, l.first);
      && ValidLooks(swapped, g) && KeepsFile(swapped, g)
      && (EqualLooks(l, g, platform, clock) ==> EqualLooks(swapped, g, platform, clock))
      && (SameBytes(swapped, g, platform, clock) ==> SameBytes(l, g, platform, clock))
  {
  }

  lemma HonestLooksAgree(l: Looks, g: Granularity, platform: Platform, clock: Clock)
    requires ValidLooks(l, g) && Honest(l.run, g) && KeepsFile(l, g)
    requires clock == Probe || g <= RACY_MTIME_WINDOW
    requires EqualLooks(l, g, platform, clock)
    ensures SameBytes(l, g, platform, clock)
  {
    if l.first.stat <= l.second.stat {
      OrderedHonestLooksAgree(l, g, platform, clock);
    } else {
      SwappedLooks(l, g, platform, clock);
      OrderedHonestLooksAgree(Looks(l.run, l.path, l.second, l.first), g, platform, clock);
    }
  }

  lemma HonestTimesSuffice(platform: Platform, clock: Clock, g: Granularity)
    requires clock == Probe || g <= RACY_MTIME_WINDOW
    ensures SoundWhenHonest(platform, clock, g)
  {
    forall l: Looks |
      ValidLooks(l, g) && Honest(l.run, g) && KeepsFile(l, g) && EqualLooks(l, g, platform, clock)
      ensures SameBytes(l, g, platform, clock)
    {
      HonestLooksAgree(l, g, platform, clock);
    }
  }

  lemma RewriteIsHonest(late: U128, g: Granularity)
    requires Stamp(late, g) == 0
    ensures var l := RewriteLooks(late, g); ValidLooks(l, g) && Honest(l.run, g) && KeepsFile(l, g)
  {
    RewriteLooksAreValid(late, g);
    var run := RewriteRun(late, g);
    assert Allowed(run[0], Advance(late)) && Stamps(run[0], Advance(late), g);
    assert run[1] == Apply(run[0], Advance(late), g);
    var write := Write(7, [2], 0);
    assert Allowed(run[1], write) && Stamps(run[1], write, g) && run[2] == Apply(run[1], write, g);
    assert HonestStep(run[0], run[1], g) && HonestStep(run[1], run[2], g);
  }

  /** So with honest times the scheme is sound on every platform exactly when judged
      by the file system's clock or the granularity is within the window. */
  lemma SoundWhenHonestExactlyWhen(platform: Platform, clock: Clock, g: Granularity)
    ensures SoundWhenHonest(platform, clock, g) <==> clock == Probe || g <= RACY_MTIME_WINDOW
  {
    if clock == Probe || g <= RACY_MTIME_WINDOW {
      HonestTimesSuffice(platform, clock, g);
    } else {
      var late, x: Bytes, y: Bytes := RACY_MTIME_WINDOW, [1], [2];
      StampBelowGranularity(late, g);
      RewriteIsHonest(late, g);
      RewriteLooksAreValid(late, g);
      SingleBytesDoNotCollide(1, 2, x, y);
      EqualLooksOverOtherBytes(RewriteLooks(late, g), g, platform, clock, late);
    }
  }

  /** Two files made at time 0; the path names the first and, after `late`, the other. */
  function MoveRun(late: U128): seq<Fs> {
    var files: map<U64, Inode> := map[7 := Inode([1], 0, 0, 0), 8 := Inode([2], 0, 0, 0)];
    [Fs(0, files, map[[] := 7]), Fs(late, files, map[[] := 7]), Fs(late, files, map[[] := 8])]
  }

  lemma MoveIsHonest(late: U128, g: Granularity)
    ensures var l := Looks(MoveRun(late), [], LookAt(1), LookAt(2));
      && ValidLooks(l, g) && Honest(l.run, g)
      && l.run[1].clock == l.run[2].clock == late
      && FoundBy(l.run, g, l.path, l.first).node == Inode([1], 0, 0, 0)
      && FoundBy(l.run, g, l.path, l.second).node == Inode([2], 0, 0, 0)
  {
    var run := MoveRun(late);
    assert run[0].paths.Values <= run[0].inodes.Keys;
    assert Allowed(run[0], Advance(late)) && run[1] == Apply(run[0], Advance(late), g);
    var move := Op.Name([], 8);
    assert Allowed(run[1], move) && run[2] == Apply(run[1], move, g);
    assert Stamps(run[0], Advance(late), g) && Stamps(run[1], move, g);
    assert HonestStep(run[0], run[1], g) && HonestStep(run[1], run[2], g);
    assert Steps(run[0], run[1], g) && Steps(run[1], run[2], g);
  }

  /** Where no inode is recorded the path must keep its file: with honest times too, an
      older file of the same stamps moved into the path goes unseen. */
  lemma MovedFileGoesUnseen(platform: Platform, clock: Clock, g: Granularity, late: U128) returns (l: Looks)
    requires platform != Unix && Reading(clock, Fs(late, map[], map[]), g) >= RACY_MTIME_WINDOW
    ensures ValidLooks(l, g) && Honest(l.run, g)
    ensures EqualLooks(l, g, platform, clock) && !SameBytes(l, g, platform, clock)
  {
    l := Looks(MoveRun(late), [], LookAt(1), LookAt(2));
    MoveIsHonest(late, g);
    var x: Bytes, y: Bytes := [1], [2];
    SingleBytesDoNotCollide(1, 2, x, y);
    SettledApart(l, g, platform, clock, late);
  }

  lemma SettledApart(l: Looks, g: Granularity, platform: Platform, clock: Clock, late: U128)
    requires ValidLooks(l, g) && l.run[l.first.now].clock == l.run[l.second.now].clock == late
    requires platform != Unix && Reading(clock, Fs(late, map[], map[]), g) >= RACY_MTIME_WINDOW
    requires var a, b := FoundBy(l.run, g, l.path, l.first), FoundBy(l.run, g, l.path, l.second);
      && a.node.mtime == b.node.mtime == a.node.birth == b.node.birth == 0
      && |a.node.bytes| == |b.node.bytes| && StableHexHash(a.node.bytes) != StableHexHash(b.node.bytes)
    ensures EqualLooks(l, g, platform, clock) && !SameBytes(l, g, platform, clock)
  {
    assert !Racy(0, Reading(clock, Fs(late, map[], map[]), g));
  }
}
