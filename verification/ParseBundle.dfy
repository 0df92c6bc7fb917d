/**
 The parse results of one run context, kept under a 64-bit hash of the file's
 fingerprint and moved out one at a time.
 */
module ParseBundle {
  import opened Common
  import opened CacheKey

  datatype ParsedModule<+P> = ParsedModule(path: Bytes, result: P)

  function EntryId(key: SourceFingerprint): Bytes {
    StableHexHash(EntryText(key))
  }

  /** Moving an entry out: one of another path is a collision and stays put. */
  predicate Hits<P>(entries: map<Bytes, ParsedModule<P>>, key: SourceFingerprint) {
    EntryId(key) in entries && entries[EntryId(key)].path == key.path
  }

  class ParseCacheBundle<P(==)> {
    var entries: map<Bytes, ParsedModule<P>>

    constructor ()
      ensures entries == map[]
    {
      entries := map[];
    }

    method Insert(key: SourceFingerprint, parsed: ParsedModule<P>)
      modifies this
      ensures entries == Apply(old(entries), Inserted(key, parsed))
    {
      entries := entries[EntryId(key) := parsed];
    }

    method Take(key: SourceFingerprint) returns (taken: Option<ParsedModule<P>>)
      modifies this
      ensures entries == Apply(old(entries), Taken(key))
      ensures taken == if Hits(old(entries), key) then Some(old(entries)[EntryId(key)]) else None
    {
      var id := EntryId(key);
      if id in entries && entries[id].path == key.path {
        taken := Some(entries[id]);
        entries := entries - {id};
      } else {
        taken := None;
      }
    }
  }

  // ------------------------------------------------------------------- histories

  datatype Op<+P> =
    | Inserted(key: SourceFingerprint, parsed: ParsedModule<P>)
    | Taken(key: SourceFingerprint)

  function Apply<P>(entries: map<Bytes, ParsedModule<P>>, op: Op<P>): map<Bytes, ParsedModule<P>> {
    match op
    case Inserted(key, parsed) => entries[EntryId(key) := parsed]
    case Taken(key) => if Hits(entries, key) then entries - {EntryId(key)} else entries
  }

  function Replay<P>(ops: seq<Op<P>>): map<Bytes, ParsedModule<P>> {
    if ops == [] then map[] else Apply(Replay(ops[..|ops| - 1]), ops[|ops| - 1])
  }

  /** `ops[i]` inserted what `id` now holds: nothing later was inserted under the
      id, and no later take asked for it by its path. */
  ghost predicate Holds<P>(ops: seq<Op<P>>, i: nat, id: Bytes) {
    && i < |ops| && ops[i].Inserted? && EntryId(ops[i].key) == id
    && forall j :: i < j < |ops| && EntryId(ops[j].key) == id ==> ops[j].Taken? && ops[j].key.path != ops[i].parsed.path
  }

  lemma HoldsStep<P>(ops: seq<Op<P>>, op: Op<P>, id: Bytes, i: nat)
    ensures Holds(ops + [op], i, id) <==>
      if EntryId(op.key) != id then Holds(ops, i, id)
      else if op.Inserted? then i == |ops|
      else Holds(ops, i, id) && ops[i].parsed.path != op.key.path
  {
    var after := ops + [op];
    assert after[|ops|] == op;
    if i < |ops| {
      assert after[i] == ops[i];
      assert forall j :: i < j < |ops| ==> after[j] == ops[j];
    }
  }

  ghost predicate IsHeld<P>(ops: seq<Op<P>>, id: Bytes) {
    exists i: nat :: Holds(ops, i, id)
  }

  /** An id holds what stands for it, and nothing when nothing does. */
  ghost predicate IsRight<P>(ops: seq<Op<P>>, id: Bytes) {
    && (id in Replay(ops) <==> IsHeld(ops, id))
    && forall i: nat :: Holds(ops, i, id) ==> id in Replay(ops) && Replay(ops)[id] == ops[i].parsed
  }

  lemma OneMoreOp<P>(ops: seq<Op<P>>, op: Op<P>, id: Bytes)
    requires IsRight(ops, id)
    ensures IsRight(ops + [op], id)
  {
    var after := ops + [op];
    forall i: nat ensures Holds(after, i, id) ==> id in Replay(after) && Replay(after)[id] == after[i].parsed {
      HoldsStep(ops, op, id, i);
    }
    if id in Replay(after) {
      StillHeld(ops, op, id);
    }
  }

  lemma StillHeld<P>(ops: seq<Op<P>>, op: Op<P>, id: Bytes)
    requires IsRight(ops, id) && id in Apply(Replay(ops), op)
    ensures IsHeld(ops + [op], id)
  {
    if EntryId(op.key) == id && op.Inserted? {
      HoldsStep(ops, op, id, |ops|);
    } else {
      var i: nat :| Holds(ops, i, id);
      HoldsStep(ops, op, id, i);
    }
  }

  /** After any history an id holds exactly the insertion that stands for it. */
  lemma {:induction false} ReplayIsTheStandingInsert<P>(ops: seq<Op<P>>, id: Bytes)
    ensures IsRight(ops, id)
  {
    if ops != [] {
      ReplayIsTheStandingInsert(ops[..|ops| - 1], id);
      OneMoreOp(ops[..|ops| - 1], ops[|ops| - 1], id);
      assert ops == ops[..|ops| - 1] + [ops[|ops| - 1]];
    }
  }

  /** What was put in comes out, once. */
  lemma InsertThenTake<P>(ops: seq<Op<P>>, key: SourceFingerprint, parsed: ParsedModule<P>)
    requires parsed.path == key.path
    ensures Hits(Replay(ops + [Inserted(key, parsed)]), key)
    ensures Replay(ops + [Inserted(key, parsed)])[EntryId(key)] == parsed
    ensures !Hits(Replay(ops + [Inserted(key, parsed), Taken(key)]), key)
  {
    var once := ops + [Inserted(key, parsed)];
    assert once[..|ops|] == ops;
    var twice := ops + [Inserted(key, parsed), Taken(key)];
    assert twice[..|once|] == once;
  }

  /** Callers store a module under its own file's key, and content hashes are hex. */
  ghost predicate WellFilled<P>(ops: seq<Op<P>>) {
    forall i :: 0 <= i < |ops| ==>
      NEWLINE !in ops[i].key.contentHash && (ops[i].Inserted? ==> ops[i].parsed.path == ops[i].key.path)
  }

  /** A hit is the module stored for this very fingerprint, unless another
      fingerprint of the same file was stored since whose different text hashes
      alike: a hit never crosses files. */
  lemma WrongHitIsAHashCollision<P>(ops: seq<Op<P>>, key: SourceFingerprint) returns (i: nat)
    requires WellFilled(ops) && NEWLINE !in key.contentHash
    requires Hits(Replay(ops), key)
    ensures Holds(ops, i, EntryId(key)) && Replay(ops)[EntryId(key)] == ops[i].parsed
    ensures ops[i].key.path == key.path
    ensures ops[i].key == key ||
      (&& EntryText(ops[i].key) != EntryText(key)
       && Absorb(FNV_OFFSET, EntryText(ops[i].key)) == Absorb(FNV_OFFSET, EntryText(key)))
  {
    ReplayIsTheStandingInsert(ops, EntryId(key));
    i :| Holds(ops, i, EntryId(key));
    Hex16IsInjective(Absorb(FNV_OFFSET, EntryText(ops[i].key)), Absorb(FNV_OFFSET, EntryText(key)));
    if EntryText(ops[i].key) == EntryText(key) {
      EntryTextIsInjective(ops[i].key, key);
    }
  }
}
