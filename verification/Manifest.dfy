/**
 Manifests as lists of declarations; what one fix does to them.
 */
module Manifest {
  import opened Common
  import opened FixPlan
  import opened FixOrder

  // ------------------------------------------------------- manifests and edits

  type Span = n: nat | n > 0 witness 1

  /** One declaration: the distribution its parser reads from it, and how many
      addresses it takes (physical lines of a requirements file, one otherwise). */
  datatype Entry = Entry(text: string, name: Option<string>, span: Span)

  /** A frozen list refuses every removal: a requirements file with a hash pin, a
      setup.cfg value with several items on its one line. */
  datatype Listing = Listing(entries: seq<Entry>, frozen: bool)

  /** `lists` are the arrays by label, `keys` the labels of table entries; `isOpen`
      says that `project.dependencies` is an array or can become one. */
  datatype Doc =
    | Toml(lists: map<string, Listing>, keys: set<string>, isOpen: bool)
    | Cfg(lists: map<string, Listing>)
    | Lines(listing: Listing)
    | Other

  /** The readable files. */
  type Disk = map<string, Doc>

  /** Path containment and distribution names are decided elsewhere. */
  datatype Env = Env(contained: string -> bool, normalize: string -> string, nameOf: string -> Option<string>)

  datatype Kind = TomlFile | CfgFile | LinesFile

  function Lower(s: string): string {
    seq(|s|, i requires 0 <= i < |s| => if 'A' <= s[i] <= 'Z' then s[i] + ('a' - 'A') else s[i])
  }

  predicate HasExtension(file: string, ext: string) {
    |file| > |ext| && Lower(file[|file| - |ext|..]) == ext && file[|file| - |ext| - 1] != '/'
  }

  function KindOf(file: string): Kind {
    if HasExtension(file, ".toml") then TomlFile
    else if HasExtension(file, ".cfg") then CfgFile
    else LinesFile
  }

  datatype Removal = Removal(at: nat, name: string)

  /** Drops the entry at the removal's address if it names the target. */
  function RemoveAt(entries: seq<Entry>, at: nat, r: Removal): Option<seq<Entry>> {
    if entries == [] || r.at < at then None
    else if r.at == at then
      if entries[0].name == Some(r.name) then Some(entries[1..]) else None
    else
      match RemoveAt(entries[1..], at + entries[0].span, r)
      case Some(rest) => Some([entries[0]] + rest)
      case None => None
  }

  function ListOf(lists: map<string, Listing>, list: string): Listing {
    if list in lists then lists[list] else Listing([], false)
  }

  function RemoveIndexed(lists: map<string, Listing>, tag: string, name: string): Option<map<string, Listing>> {
    match IndexedTag(tag)
    case None => None
    case Some(to) =>
      var was := ListOf(lists, to.list);
      if was.frozen then None
      else
        match RemoveAt(was.entries, 0, Removal(to.index, name))
        case Some(left) => Some(lists[to.list := Listing(left, false)])
        case None => None
  }

  function WithoutName(entries: seq<Entry>, name: string): seq<Entry> {
    if entries == [] then []
    else (if entries[0].name == Some(name) then [] else [entries[0]]) + WithoutName(entries[1..], name)
  }

  function RemoveLine(listing: Listing, name: string, line: Option<nat>): Option<Listing> {
    if listing.frozen then None
    else
      match line
      case Some(at) => (
        match RemoveAt(listing.entries, 1, Removal(at, name))
        case Some(left) => Some(Listing(left, false))
        case None => None
      )
      case None =>
        var left := WithoutName(listing.entries, name);
        if left == listing.entries then None else Some(Listing(left, false))
  }

  const RUNTIME := "project.dependencies"

  predicate Declares(env: Env, entries: seq<Entry>, raw: string) {
    exists e :: e in entries && e.name == Some(env.normalize(raw))
  }

  /** Appends a runtime dependency unless one of that name is declared. */
  function PushRuntime(env: Env, doc: Doc, raw: string): Option<Doc>
    requires doc.Toml?
  {
    var deps := ListOf(doc.lists, RUNTIME);
    if !doc.isOpen then None
    else if Declares(env, deps.entries, raw) then Some(doc)
    else Some(doc.(lists := doc.lists[RUNTIME := deps.(entries := deps.entries + [Entry(raw, env.nameOf(raw), 1)])]))
  }

  function RemoveFromDoc(env: Env, doc: Doc, action: Action): Option<Doc>
    requires action.RemoveDependency?
  {
    var name := env.normalize(action.name);
    match (KindOf(action.file), doc)
    case (TomlFile, Toml(_, _, _)) => RemoveTagged(doc, action.tag, name)
    case (CfgFile, Cfg(lists)) => (
      match RemoveIndexed(lists, action.tag, name)
      case Some(left) => Some(Cfg(left))
      case None => None
    )
    case (LinesFile, Lines(listing)) => (
      match RemoveLine(listing, name, action.line)
      case Some(left) => Some(Lines(left))
      case None => None
    )
    case _ => None
  }

  /** A table entry goes by its key, an array entry by its index. */
  function RemoveTagged(doc: Doc, tag: string, name: string): Option<Doc>
    requires doc.Toml?
  {
    if IndexedTag(tag).None? then
      if tag in doc.keys then Some(doc.(keys := doc.keys - {tag})) else None
    else
      match RemoveIndexed(doc.lists, tag, name)
      case Some(left) => Some(doc.(lists := left))
      case None => None
  }

  function MoveInDoc(env: Env, doc: Doc, action: Action): Option<Doc>
    requires action.MoveToRuntime?
  {
    if !doc.Toml? then None
    else
      match RemoveTagged(doc, action.tag, env.normalize(action.name))
      case Some(left) => PushRuntime(env, left, action.raw)
      case None => None
  }

  function FileOf(action: Action): string {
    if action.RemoveFile? then action.path else action.file
  }

  function Edit(env: Env, doc: Doc, action: Action): Option<Doc>
    requires !action.RemoveFile?
  {
    match action
    case RemoveDependency(_, _, _, _, _) => RemoveFromDoc(env, doc, action)
    case MoveToRuntime(_, _, _, _) => MoveInDoc(env, doc, action)
    case AddMissingDependency(name, _) => if doc.Toml? then PushRuntime(env, doc, name) else None
  }

  /** The disk after a successful action; nothing is written when it fails. */
  function Perform(env: Env, disk: Disk, action: Action): Option<Disk> {
    var file := FileOf(action);
    if !env.contained(file) || file !in disk then None
    else if action.RemoveFile? then Some(disk - {file})
    else
      match Edit(env, disk[file], action)
      case Some(doc) => Some(disk[file := doc])
      case None => None
  }

  function Attempt(env: Env, dryRun: bool, disk: Disk, action: Action): Option<Disk> {
    if dryRun then
      if env.contained(FileOf(action)) then Some(disk) else None
    else Perform(env, disk, action)
  }

  datatype Outcome = Outcome(disk: Disk, oks: seq<bool>)

  function Run(env: Env, dryRun: bool, disk: Disk, actions: seq<Action>): (r: Outcome)
    ensures |r.oks| == |actions|
  {
    if actions == [] then Outcome(disk, [])
    else
      var t := Attempt(env, dryRun, disk, actions[0]);
      var rest := Run(env, dryRun, if t.Some? then t.value else disk, actions[1..]);
      Outcome(rest.disk, [t.Some?] + rest.oks)
  }

  // ------------------------------------------------- one list through one edit

  function EntriesOf(doc: Doc, list: string): seq<Entry> {
    match doc
    case Toml(lists, _, _) => ListOf(lists, list).entries
    case Cfg(lists) => ListOf(lists, list).entries
    case Lines(listing) => if list == "" then listing.entries else []
    case Other => []
  }

  /** The address of a list's first entry: lines count from one. */
  function FirstAddress(doc: Doc): nat {
    if doc.Lines? then 1 else 0
  }

  /** The removal an action makes in one list of a document, if any. */
  function RemovalOn(env: Env, doc: Doc, action: Action, list: string): Option<Removal> {
    if action.AddMissingDependency? || action.RemoveFile? then None
    else
      var name := env.normalize(action.name);
      var kind := KindOf(action.file);
      var inArray := if action.MoveToRuntime? then doc.Toml? && doc.isOpen else kind.TomlFile? && doc.Toml?;
      if inArray then IndexedOn(doc.lists, action.tag, name, list)
      else if action.MoveToRuntime? then None
      else if kind.CfgFile? && doc.Cfg? then IndexedOn(doc.lists, action.tag, name, list)
      else if kind.LinesFile? && doc.Lines? && list == "" && !doc.listing.frozen && action.line.Some?
      then Some(Removal(action.line.value, name))
      else None
  }

  function IndexedOn(lists: map<string, Listing>, tag: string, name: string, list: string): Option<Removal> {
    match IndexedTag(tag)
    case Some(to) => if to.list == list && !ListOf(lists, list).frozen then Some(Removal(to.index, name)) else None
    case None => None
  }

  ghost predicate SameFreezing(xs: map<string, Listing>, ys: map<string, Listing>) {
    forall l :: ListOf(xs, l).frozen == ListOf(ys, l).frozen
  }

  /** What no edit changes about a document. */
  ghost predicate SameShape(a: Doc, b: Doc) {
    match (a, b)
    case (Toml(xs, _, p), Toml(ys, _, q)) => p == q && SameFreezing(xs, ys)
    case (Cfg(xs), Cfg(ys)) => SameFreezing(xs, ys)
    case (Lines(x), Lines(y)) => x.frozen == y.frozen
    case (Other, Other) => true
    case _ => false
  }

  /** Requirements entries are addressed by line and labelled with their file;
      entries of a `setup.py` have no line and go by name. */
  predicate LineAddressed(action: Action) {
    action.RemoveDependency? && KindOf(action.file).LinesFile? ==> action.tag == action.file && action.line.Some?
  }

  lemma RemoveIndexedOnList(lists: map<string, Listing>, tag: string, name: string, list: string)
    ensures var left := RemoveIndexed(lists, tag, name);
      && (left.Some? ==> SameFreezing(lists, left.value))
      && match IndexedOn(lists, tag, name, list)
         case Some(r) =>
           var kept := RemoveAt(ListOf(lists, list).entries, 0, r);
           (left.Some? <==> kept.Some?) && (left.Some? ==> ListOf(left.value, list).entries == kept.value)
         case None => left.Some? ==> ListOf(left.value, list).entries == ListOf(lists, list).entries
  {
  }

  lemma RemoveTaggedOnList(doc: Doc, tag: string, name: string, list: string)
    requires doc.Toml?
    ensures var left := RemoveTagged(doc, tag, name);
      && (left.Some? ==> SameShape(doc, left.value))
      && match IndexedOn(doc.lists, tag, name, list)
         case Some(r) =>
           var kept := RemoveAt(EntriesOf(doc, list), 0, r);
           (left.Some? <==> kept.Some?) && (left.Some? ==> EntriesOf(left.value, list) == kept.value)
         case None => left.Some? ==> EntriesOf(left.value, list) == EntriesOf(doc, list)
  {
    RemoveIndexedOnList(doc.lists, tag, name, list);
  }

  /** What pushing `raw` appends to the runtime list holding `entries`. */
  function Pushed(env: Env, entries: seq<Entry>, raw: string): seq<Entry> {
    if Declares(env, entries, raw) then [] else [Entry(raw, env.nameOf(raw), 1)]
  }

  lemma PushOnList(env: Env, doc: Doc, raw: string, list: string)
    requires doc.Toml?
    ensures var after := PushRuntime(env, doc, raw);
      && (after.Some? <==> doc.isOpen)
      && (after.Some? ==> SameShape(doc, after.value))
      && (after.Some? ==>
            EntriesOf(after.value, list) ==
            EntriesOf(doc, list) + if list == RUNTIME then Pushed(env, EntriesOf(doc, list), raw) else [])
  {
  }

  /** The one list edits append to. */
  predicate Grows(doc: Doc, list: string) {
    doc.Toml? && list == RUNTIME
  }

  /** The requirement an action asks to append. */
  function Wanted(action: Action): Option<string> {
    match action
    case MoveToRuntime(_, _, _, raw) => Some(raw)
    case AddMissingDependency(name, _) => Some(name)
    case _ => None
  }

  /** What an action appends to a list that holds `kept` by then. */
  function AddedBy(env: Env, doc: Doc, action: Action, list: string, kept: seq<Entry>): seq<Entry> {
    if Grows(doc, list) && Wanted(action).Some? then Pushed(env, kept, Wanted(action).value) else []
  }

  /** Without a line number a requirements entry goes by name, wherever it stands. */
  predicate GoesByName(doc: Doc, action: Action, list: string) {
    action.RemoveDependency? && KindOf(action.file).LinesFile? && doc.Lines? && list == "" && action.line.None?
  }

  /** An action removes by address or by name. */
  datatype Take = ByAddress(removal: Removal) | ByName(name: string)

  function TakeOn(env: Env, doc: Doc, action: Action, list: string): Option<Take> {
    match RemovalOn(env, doc, action, list)
    case Some(r) => Some(ByAddress(r))
    case None =>
      if GoesByName(doc, action, list) && !doc.listing.frozen then Some(ByName(env.normalize(action.name))) else None
  }

  /** What an edit takes from a list; nothing where it has no business. */
  function Taken(env: Env, doc: Doc, action: Action, list: string): Option<seq<Entry>> {
    var was := EntriesOf(doc, list);
    match RemovalOn(env, doc, action, list)
    case Some(r) => RemoveAt(was, FirstAddress(doc), r)
    case None =>
      if GoesByName(doc, action, list) then
        var left := WithoutName(was, env.normalize(action.name));
        if doc.listing.frozen || left == was then None else Some(left)
      else Some(was)
  }

  /** An edit that touches the list succeeds exactly when it can take what it
      addresses there; it leaves the rest in place and appends to one list only. */
  ghost predicate EditsList(env: Env, doc: Doc, action: Action, list: string, edited: Option<Doc>) {
    && (edited.Some? ==> SameShape(doc, edited.value))
    && var kept := Taken(env, doc, action, list);
       && (RemovalOn(env, doc, action, list).Some? || GoesByName(doc, action, list) ==> (edited.Some? <==> kept.Some?))
       && (edited.Some? ==> kept.Some?)
       && (edited.Some? ==>
             EntriesOf(edited.value, list) == kept.value + AddedBy(env, doc, action, list, kept.value))
  }

  lemma RemoveFromDocOnList(env: Env, doc: Doc, action: Action, list: string)
    requires action.RemoveDependency?
    ensures EditsList(env, doc, action, list, RemoveFromDoc(env, doc, action))
  {
    var name := env.normalize(action.name);
    if doc.Toml? {
      RemoveTaggedOnList(doc, action.tag, name, list);
    } else if doc.Cfg? {
      RemoveIndexedOnList(doc.lists, action.tag, name, list);
    }
    var edited := RemoveFromDoc(env, doc, action);
    assert edited.Some? ==> EntriesOf(edited.value, list) + [] == EntriesOf(edited.value, list);
  }

  lemma MoveInDocOnList(env: Env, doc: Doc, action: Action, list: string)
    requires action.MoveToRuntime?
    ensures EditsList(env, doc, action, list, MoveInDoc(env, doc, action))
  {
    if doc.Toml? {
      var name := env.normalize(action.name);
      RemoveTaggedOnList(doc, action.tag, name, list);
      var left := RemoveTagged(doc, action.tag, name);
      if left.Some? {
        PushOnList(env, left.value, action.raw, list);
      }
    }
  }

  /** The effect of an edit on each list of its document. */
  lemma EditOnList(env: Env, doc: Doc, action: Action, list: string)
    requires !action.RemoveFile?
    ensures EditsList(env, doc, action, list, Edit(env, doc, action))
  {
    if action.RemoveDependency? {
      RemoveFromDocOnList(env, doc, action, list);
    } else if action.MoveToRuntime? {
      MoveInDocOnList(env, doc, action, list);
    } else if doc.Toml? {
      PushOnList(env, doc, action.name, list);
    }
  }

  /** Removing by name drops exactly the entries of that name, in any position. */
  lemma {:induction false} WithoutNameIsFilter(entries: seq<Entry>, name: string)
    ensures forall e :: e in WithoutName(entries, name) <==> e in entries && e.name != Some(name)
    ensures WithoutName(entries, name) == entries <==> forall e :: e in entries ==> e.name != Some(name)
  {
    if entries != [] {
      WithoutNameIsFilter(entries[1..], name);
      assert entries == [entries[0]] + entries[1..];
      assert entries[0].name == Some(name) ==> entries[0] in entries && entries[0] !in WithoutName(entries, name);
    }
  }

  // ------------------------------------------------- removals from one list

  /** The entries that no removal names at their original address. */
  function Without(entries: seq<Entry>, at: nat, gone: set<Removal>): seq<Entry> {
    if entries == [] then []
    else
      var e := entries[0];
      var rest := Without(entries[1..], at + e.span, gone);
      if e.name.Some? && Removal(at, e.name.value) in gone then rest else [e] + rest
  }

  function EndAddress(entries: seq<Entry>, at: nat): nat {
    if entries == [] then at else EndAddress(entries[1..], at + entries[0].span)
  }

  /** Removals wholly past or before a list leave it alone. */
  lemma {:induction false} OtherRemovalsMiss(entries: seq<Entry>, at: nat, gone: set<Removal>, r: Removal)
    requires r.at < at
    ensures Without(entries, at, gone + {r}) == Without(entries, at, gone)
  {
    if entries != [] {
      OtherRemovalsMiss(entries[1..], at + entries[0].span, gone, r);
    }
  }

  lemma RemoveHead(e: Entry, rest: seq<Entry>, r: Removal)
    ensures RemoveAt([e] + rest, r.at, r) == if e.name == Some(r.name) then Some(rest) else None
  {
    assert ([e] + rest)[1..] == rest;
  }

  lemma WithoutSkips(e: Entry, rest: seq<Entry>, at: nat, gone: set<Removal>)
    requires forall g :: g in gone ==> at != g.at
    ensures Without([e] + rest, at, gone) == [e] + Without(rest, at + e.span, gone)
  {
    assert ([e] + rest)[1..] == rest;
  }

  /** Below everything already gone, an address still means the original entry. */
  ghost predicate HitsItsTarget(entries: seq<Entry>, at: nat, gone: set<Removal>, added: seq<Entry>, r: Removal) {
    var left := RemoveAt(Without(entries, at, gone) + added, at, r);
    if RemoveAt(entries, at, r).Some?
    then left == Some(Without(entries, at, gone + {r}) + added)
    else left == None && Without(entries, at, gone + {r}) == Without(entries, at, gone)
  }

  lemma HitsHead(e: Entry, rest: seq<Entry>, gone: set<Removal>, added: seq<Entry>, r: Removal)
    requires forall g :: g in gone ==> r.at < g.at
    ensures HitsItsTarget([e] + rest, r.at, gone, added, r)
  {
    var next := r.at + e.span;
    OtherRemovalsMiss(rest, next, gone, r);
    WithoutSkips(e, rest, r.at, gone);
    RemoveHead(e, rest, r);
    Reassociate([e], Without(rest, next, gone), added);
    RemoveHead(e, Without(rest, next, gone) + added, r);
    assert ([e] + rest)[1..] == rest;
  }

  lemma HitsTail(e: Entry, rest: seq<Entry>, at: nat, gone: set<Removal>, added: seq<Entry>, r: Removal)
    requires at < r.at && forall g :: g in gone ==> r.at < g.at
    requires HitsItsTarget(rest, at + e.span, gone, added, r)
    ensures HitsItsTarget([e] + rest, at, gone, added, r)
  {
    var next := at + e.span;
    WithoutSkips(e, rest, at, gone);
    WithoutSkips(e, rest, at, gone + {r});
    Reassociate([e], Without(rest, next, gone), added);
    Reassociate([e], Without(rest, next, gone + {r}), added);
  }

  lemma {:induction false} NextRemovalHitsItsTarget(
    entries: seq<Entry>, at: nat, gone: set<Removal>, added: seq<Entry>, r: Removal)
    requires forall g :: g in gone ==> r.at < g.at
    requires added == [] || r.at < EndAddress(entries, at)
    ensures HitsItsTarget(entries, at, gone, added, r)
  {
    if r.at < at {
      OtherRemovalsMiss(entries, at, gone, r);
    } else if entries != [] {
      assert entries == [entries[0]] + entries[1..];
      if r.at == at {
        HitsHead(entries[0], entries[1..], gone, added, r);
      } else {
        NextRemovalHitsItsTarget(entries[1..], at + entries[0].span, gone, added, r);
        HitsTail(entries[0], entries[1..], at, gone, added, r);
      }
    }
  }

  lemma {:induction false} NothingGone(entries: seq<Entry>, at: nat)
    ensures Without(entries, at, {}) == entries == Without(entries, at, {}) + []
  {
    if entries != [] {
      NothingGone(entries[1..], at + entries[0].span);
    }
  }

  // ----------------------------------------------- what a label or a line names

  /** Addresses taken by entries. */
  function Width(entries: seq<Entry>): nat {
    if entries == [] then 0 else Width(entries[..|entries| - 1]) + entries[|entries| - 1].span
  }

  /** The removal addresses the `k`th entry, all before it being `r.at - at` wide, and
      names it. */
  predicate Targets(entries: seq<Entry>, at: nat, r: Removal, k: nat) {
    k < |entries| && at + Width(entries[..k]) == r.at && entries[k].name == Some(r.name)
  }

  lemma {:induction false} WidthOfTail(e: Entry, rest: seq<Entry>)
    ensures Width([e] + rest) == e.span + Width(rest)
  {
    if rest == [] {
      assert [e] + rest == [e] && [e][..0] == [];
    } else {
      var last := |rest| - 1;
      assert ([e] + rest)[..|rest|] == [e] + rest[..last];
      WidthOfTail(e, rest[..last]);
    }
  }

  lemma TargetsBehind(e: Entry, rest: seq<Entry>, at: nat, r: Removal, k: nat)
    ensures Targets([e] + rest, at, r, k + 1) <==> Targets(rest, at + e.span, r, k)
  {
    if k < |rest| {
      assert ([e] + rest)[..k + 1] == [e] + rest[..k];
      WidthOfTail(e, rest[..k]);
    }
  }

  ghost predicate DropsItsTarget(entries: seq<Entry>, at: nat, r: Removal) {
    && (RemoveAt(entries, at, r).Some? <==> exists k: nat :: Targets(entries, at, r, k))
    && forall k: nat :: Targets(entries, at, r, k) ==>
         RemoveAt(entries, at, r) == Some(entries[..k] + entries[k + 1..])
  }

  lemma DropsHead(e: Entry, rest: seq<Entry>, at: nat, r: Removal)
    requires r.at <= at
    ensures DropsItsTarget([e] + rest, at, r)
  {
    var entries := [e] + rest;
    assert entries[..0] == [] && entries[1..] == rest && [] + rest == rest;
    assert Targets(entries, at, r, 0) <==> r.at == at && e.name == Some(r.name);
    forall k: nat | k > 0 ensures !Targets(entries, at, r, k) {
      TargetsBehind(e, rest, at, r, k - 1);
    }
  }

  lemma DropsBehind(e: Entry, rest: seq<Entry>, at: nat, r: Removal)
    requires at < r.at && DropsItsTarget(rest, at + e.span, r)
    ensures DropsItsTarget([e] + rest, at, r)
  {
    var entries, next := [e] + rest, at + e.span;
    assert entries[1..] == rest && entries[..0] == [];
    forall k: nat | Targets(entries, at, r, k)
      ensures RemoveAt(entries, at, r) == Some(entries[..k] + entries[k + 1..])
    {
      assert k > 0;
      TargetsBehind(e, rest, at, r, k - 1);
      assert entries[..k] == [e] + rest[..k - 1] && entries[k + 1..] == rest[k..];
      Reassociate([e], rest[..k - 1], rest[k..]);
    }
    if k: nat :| Targets(rest, next, r, k) {
      TargetsBehind(e, rest, at, r, k);
    }
  }

  /** A removal drops the one entry it addresses and names, and fails if there is none. */
  lemma {:induction false} RemoveAtDropsItsTarget(entries: seq<Entry>, at: nat, r: Removal)
    ensures RemoveAt(entries, at, r).Some? <==> exists k: nat :: Targets(entries, at, r, k)
    ensures forall k: nat :: Targets(entries, at, r, k) ==>
      RemoveAt(entries, at, r) == Some(entries[..k] + entries[k + 1..])
    ensures DropsItsTarget(entries, at, r)
  {
    if entries != [] {
      assert entries == [entries[0]] + entries[1..];
      if r.at <= at {
        DropsHead(entries[0], entries[1..], at, r);
      } else {
        RemoveAtDropsItsTarget(entries[1..], at + entries[0].span, r);
        DropsBehind(entries[0], entries[1..], at, r);
      }
    }
  }

  lemma {:induction false} WidthOfArray(entries: seq<Entry>)
    requires forall e :: e in entries ==> e.span == 1
    ensures Width(entries) == |entries|
  {
    if entries != [] {
      var init := entries[..|entries| - 1];
      assert forall e :: e in init ==> e in entries;
      assert entries[|entries| - 1] in entries;
      WidthOfArray(init);
    }
  }

  lemma ArrayRemoval(entries: seq<Entry>, n: nat, name: string)
    requires forall e :: e in entries ==> e.span == 1
    ensures RemoveAt(entries, 0, Removal(n, name)) ==
      if n < |entries| && entries[n].name == Some(name) then Some(entries[..n] + entries[n + 1..]) else None
  {
    var r := Removal(n, name);
    RemoveAtDropsItsTarget(entries, 0, r);
    forall k: nat | k < |entries| ensures Targets(entries, 0, r, k) <==> k == n && entries[k].name == Some(name) {
      assert forall e :: e in entries[..k] ==> e in entries;
      WidthOfArray(entries[..k]);
    }
  }

  /** A removal labelled `list[n]` drops entry `n` of that list if it names the
      target, and does nothing else. */
  lemma LabelDropsItsEntry(lists: map<string, Listing>, list: string, n: nat, name: string)
    requires forall e :: e in ListOf(lists, list).entries ==> e.span == 1
    requires n <= 18_446_744_073_709_551_615
    ensures
      var was := ListOf(lists, list).entries;
      RemoveIndexed(lists, list + "[" + Print(n) + "]", name) ==
      if !ListOf(lists, list).frozen && n < |was| && was[n].name == Some(name)
      then Some(lists[list := Listing(was[..n] + was[n + 1..], false)])
      else None
  {
    PrintedLabelReadsBack(list, n);
    ArrayRemoval(ListOf(lists, list).entries, n, name);
  }

  /** A requirement goes with all its lines, by the number of the first, counted
      from one. */
  lemma LineDropsItsEntry(listing: Listing, name: string, before: seq<Entry>, e: Entry, after: seq<Entry>)
    requires listing.entries == before + [e] + after && e.name == Some(name) && !listing.frozen
    ensures RemoveLine(listing, name, Some(1 + Width(before))) == Some(Listing(before + after, false))
  {
    var r := Removal(1 + Width(before), name);
    RemoveAtDropsItsTarget(listing.entries, 1, r);
    assert listing.entries[..|before|] == before && listing.entries[|before| + 1..] == after;
    assert Targets(listing.entries, 1, r, |before|);
  }

  /** Spelled like `lower`, in any case. */
  predicate SpellsIgnoringCase(s: string, lower: string) {
    |s| == |lower| && forall i :: 0 <= i < |s| ==>
      s[i] == lower[i] || ('a' <= lower[i] <= 'z' && s[i] as int + 32 == lower[i] as int)
  }

  /** A file name with something before the extension. */
  predicate IsNamed(file: string, stem: string, ext: string, lower: string) {
    file == stem + ext && stem != [] && stem[|stem| - 1] != '/' && SpellsIgnoringCase(ext, lower)
  }

  ghost predicate EndsInExtension(file: string, lower: string) {
    exists stem, ext :: IsNamed(file, stem, ext, lower)
  }

  predicate IsPlain(lower: string) {
    forall c :: c in lower ==> c == '.' || 'a' <= c <= 'z'
  }

  lemma SpellsIsLower(s: string, lower: string)
    requires IsPlain(lower)
    ensures Lower(s) == lower <==> SpellsIgnoringCase(s, lower)
  {
    if |s| == |lower| {
      forall i | 0 <= i < |s|
        ensures Lower(s)[i] == lower[i] <==>
          s[i] == lower[i] || ('a' <= lower[i] <= 'z' && s[i] as int + 32 == lower[i] as int)
      {
        assert lower[i] in lower;
      }
    }
  }

  lemma ExtensionOf(file: string, stem: string, ext: string, lower: string)
    requires file == stem + ext && |ext| == |lower| && IsPlain(lower)
    ensures HasExtension(file, lower) <==> IsNamed(file, stem, ext, lower)
  {
    assert file[|stem|..] == ext;
    SpellsIsLower(ext, lower);
  }

  lemma ExtensionIs(file: string, lower: string)
    requires IsPlain(lower)
    ensures HasExtension(file, lower) <==> EndsInExtension(file, lower)
  {
    if |file| >= |lower| {
      var stem, ext := file[..|file| - |lower|], file[|file| - |lower|..];
      ExtensionOf(file, stem, ext, lower);
      forall s, x | IsNamed(file, s, x, lower) ensures HasExtension(file, lower) {
        ExtensionOf(file, s, x, lower);
      }
    }
  }

  lemma LastOfLower(file: string, n: nat)
    requires 0 < n <= |file|
    ensures Lower(file[|file| - n..])[n - 1] == Lower([file[|file| - 1]])[0]
  {
  }

  /** A file is edited as TOML, as setup.cfg or line by line, by its extension in any
      case. */
  lemma KindFollowsTheExtension(file: string)
    ensures KindOf(file) == TomlFile <==> EndsInExtension(file, ".toml")
    ensures KindOf(file) == CfgFile <==> EndsInExtension(file, ".cfg")
  {
    assert IsPlain(".toml") && IsPlain(".cfg");
    ExtensionIs(file, ".toml");
    ExtensionIs(file, ".cfg");
    if HasExtension(file, ".toml") && HasExtension(file, ".cfg") {
      LastOfLower(file, 4);
      LastOfLower(file, 5);
    }
  }

  /** A dependency is appended to `project.dependencies` unless one of its name is
      declared there. */
  lemma PushAppendsTheUndeclared(env: Env, doc: Doc, raw: string)
    requires doc.Toml? && doc.isOpen
    ensures
      var was, after := EntriesOf(doc, "project.dependencies"), PushRuntime(env, doc, raw);
      && after.Some?
      && EntriesOf(after.value, "project.dependencies") ==
         if (exists e :: e in was && e.name == Some(env.normalize(raw))) then was
         else was + [Entry(raw, env.nameOf(raw), 1)]
  {
  }
}
