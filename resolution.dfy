/**
 * The two passes of main(): Step 1 identifies every installed archive and
 * queues each new slug; Step 2 drains the FIFO queue, selecting a version for
 * each slug and queueing the required dependencies not seen before.
 *
 * main() keeps three local variables that it updates in place: the deque
 * mods_to_process, the set processed_or_queued and the dict summary. They are
 * the fields of State; the methods below update them step by step as main()
 * does. Keys are opaque strings: local mods are keyed by slug, dependencies by
 * project id, unidentified archives by file name.
 */
module Resolution {
  import opened Wrappers
  import opened Sequences
  import opened Versions
  import opened Identify

  datatype Status = Queued | Updated | WouldUpdate | NoUpdate | NotFound

  /** One value of the summary dict: {"title", "status", "version"}. */
  datatype Entry = Entry(title: string, status: Status, version: string)

  /** The version shown for an entry that has not been processed. */
  const Pending: string := "---"
  /** The version shown when no compatible version exists. */
  const NoVersion: string := "N/A"

  /**
   * A Python dict: a map plus the order in which keys were first inserted.
   * Assigning to a key that is already present keeps its position.
   */
  datatype Summary = Summary(entries: map<string, Entry>, order: seq<string>)
  {
    ghost predicate Valid()
    {
      NoDuplicates(order) && forall k :: k in entries <==> k in order
    }

    /** summary[key] = e */
    function Put(key: string, e: Entry): (s: Summary)
      requires Valid()
      ensures s.Valid()
      ensures s.entries == entries[key := e]
      ensures key in entries ==> s.order == order
      ensures key !in entries ==> s.order == order + [key]
    {
      if key in entries then Summary(entries[key := e], order)
      else
        NoDuplicatesAppend(order, key);
        Summary(entries[key := e], order + [key])
    }
  }

  /**
   * The worklist state: the queue, the seen set, the slugs already taken off
   * the queue (in order; a record kept by the model only), the summary and the
   * files fetched by the downloader.
   */
  datatype State = State(
    queue: seq<string>,
    seen: set<string>,
    processed: seq<string>,
    summary: Summary,
    downloads: seq<File>)

  /**
   * The invariant main() keeps: no slug is appended to the queue twice, so
   * no slug is processed twice; the seen set is exactly the set of slugs ever
   * appended (processed or still waiting); every seen slug has a summary
   * entry; every entry still marked Queued is waiting in the queue.
   */
  ghost predicate Valid(st: State)
  {
    && st.summary.Valid()
    && NoDuplicates(st.processed) && NoDuplicates(st.queue)
    && (forall s :: s in st.processed ==> s !in st.queue)
    && (forall s :: s in st.seen <==> s in st.processed || s in st.queue)
    && (forall s :: s in st.seen ==> s in st.summary.entries)
    && (forall k :: k in st.summary.entries && st.summary.entries[k].status == Queued ==> k in st.queue)
  }

  /** The state before Step 1. */
  function Initial(): (st: State)
    ensures Valid(st)
  {
    State([], {}, [], Summary(map[], []), [])
  }

  /**
   * Appending a slug that has not been seen: the queue, the seen set and the
   * summary (a Queued entry with version "---") are updated together.
   */
  function Enqueue(st: State, slug: string, title: string): (r: State)
    requires Valid(st) && slug !in st.seen
    ensures Valid(r)
    ensures r.queue == st.queue + [slug] && r.seen == st.seen + {slug}
    ensures r.processed == st.processed && r.downloads == st.downloads
    ensures r.summary.entries == st.summary.entries[slug := Entry(title, Queued, Pending)]
    ensures r.summary.order == if slug in st.summary.order then st.summary.order else st.summary.order + [slug]
  {
    NoDuplicatesAppend(st.queue, slug);
    State(st.queue + [slug], st.seen + {slug}, st.processed,
          st.summary.Put(slug, Entry(title, Queued, Pending)), st.downloads)
  }

  /** The project an archive is identified as, when it has a non-empty slug. */
  function Identified(a: Archive, lookup: string -> Option<Project>, search: string -> Option<Project>): (p: Option<Project>)
    ensures p.Some? ==> p.value.slug != "" && p == FindProject(a, lookup, search)
    ensures p.None? ==> FindProject(a, lookup, search).None? || FindProject(a, lookup, search).value.slug == ""
  {
    var p := FindProject(a, lookup, search);
    if p.Some? && p.value.slug != "" then p else None
  }

  /** The summary key of an archive: its slug once identified, its file name otherwise. */
  function ArchiveKey(a: Archive, lookup: string -> Option<Project>, search: string -> Option<Project>): string
  {
    var p := Identified(a, lookup, search);
    if p.Some? then p.value.slug else a.filename
  }

  /** The summary keys of a sequence of archives. */
  ghost function ArchiveKeys(archives: seq<Archive>, lookup: string -> Option<Project>, search: string -> Option<Project>): set<string>
  {
    Image(archives, a => ArchiveKey(a, lookup, search))
  }

  /** Every archive's key is among the keys of the sequence. */
  lemma ArchiveKeyMember(archives: seq<Archive>, i: nat, lookup: string -> Option<Project>, search: string -> Option<Project>)
    requires i < |archives|
    ensures ArchiveKey(archives[i], lookup, search) in ArchiveKeys(archives, lookup, search)
  {
    ImageMember(archives, a => ArchiveKey(a, lookup, search), i);
  }

  /** The slugs a sequence of archives is identified as. */
  ghost function IdentifiedSlugs(archives: seq<Archive>, lookup: string -> Option<Project>, search: string -> Option<Project>): set<string>
  {
    if archives == [] then {}
    else
      var p := Identified(archives[|archives| - 1], lookup, search);
      IdentifiedSlugs(archives[..|archives| - 1], lookup, search) + (if p.Some? then {p.value.slug} else {})
  }

  /** The file names of the archives in a sequence that could not be identified. */
  ghost function UnidentifiedNames(archives: seq<Archive>, lookup: string -> Option<Project>, search: string -> Option<Project>): set<string>
  {
    if archives == [] then {}
    else
      var a := archives[|archives| - 1];
      UnidentifiedNames(archives[..|archives| - 1], lookup, search) + (if Identified(a, lookup, search).None? then {a.filename} else {})
  }

  /** Reference definition of the queue after Step 1: each identified slug, at its first archive. */
  ghost function QueueOrder(archives: seq<Archive>, lookup: string -> Option<Project>, search: string -> Option<Project>): seq<string>
  {
    if archives == [] then []
    else
      var init := archives[..|archives| - 1];
      var p := Identified(archives[|archives| - 1], lookup, search);
      if p.Some? && p.value.slug !in IdentifiedSlugs(init, lookup, search) then QueueOrder(init, lookup, search) + [p.value.slug]
      else QueueOrder(init, lookup, search)
  }

  /** Reference definition of the summary's key order after Step 1: each archive key, at its first archive. */
  ghost function SummaryOrder(archives: seq<Archive>, lookup: string -> Option<Project>, search: string -> Option<Project>): seq<string>
  {
    if archives == [] then []
    else
      var o := SummaryOrder(archives[..|archives| - 1], lookup, search);
      var k := ArchiveKey(archives[|archives| - 1], lookup, search);
      if k in o then o else o + [k]
  }

  /**
   * Reference definition of the summary's entries after Step 1: a Queued
   * entry titled by the registry for the first archive of each identified
   * slug, and a Not Found entry titled by its file name for each archive that
   * could not be identified, later assignments overwriting earlier ones.
   */
  ghost function Step1Entries(archives: seq<Archive>, lookup: string -> Option<Project>, search: string -> Option<Project>): map<string, Entry>
  {
    if archives == [] then map[]
    else
      var init := archives[..|archives| - 1];
      var m := Step1Entries(init, lookup, search);
      var a := archives[|archives| - 1];
      var p := Identified(a, lookup, search);
      if p.None? then m[a.filename := Entry(a.filename, NotFound, Pending)]
      else if p.value.slug in IdentifiedSlugs(init, lookup, search) then m
      else m[p.value.slug := Entry(p.value.title, Queued, Pending)]
  }

  /** How the Step 1 reference definitions grow by one archive. */
  lemma ReferenceStep(archives: seq<Archive>, i: nat, lookup: string -> Option<Project>, search: string -> Option<Project>)
    requires i < |archives|
    ensures var a := archives[i];
      var p := Identified(a, lookup, search);
      var seen := IdentifiedSlugs(archives[..i], lookup, search);
      && QueueOrder(archives[..i + 1], lookup, search) ==
           (if p.Some? && p.value.slug !in seen then QueueOrder(archives[..i], lookup, search) + [p.value.slug]
            else QueueOrder(archives[..i], lookup, search))
      && Step1Entries(archives[..i + 1], lookup, search) ==
           (if p.None? then Step1Entries(archives[..i], lookup, search)[a.filename := Entry(a.filename, NotFound, Pending)]
            else if p.value.slug in seen then Step1Entries(archives[..i], lookup, search)
            else Step1Entries(archives[..i], lookup, search)[p.value.slug := Entry(p.value.title, Queued, Pending)])
      && var o := SummaryOrder(archives[..i], lookup, search);
         var k := ArchiveKey(a, lookup, search);
         SummaryOrder(archives[..i + 1], lookup, search) == if k in o then o else o + [k]
  {
    assert archives[..i + 1][..i] == archives[..i];
  }

  /** A Not Found entry of Step 1 is titled by its key, the file name, and shows no version. */
  lemma {:induction false} Step1NotFound(archives: seq<Archive>, lookup: string -> Option<Project>, search: string -> Option<Project>)
    ensures var m := Step1Entries(archives, lookup, search);
      forall k :: k in m && m[k].status == NotFound ==> m[k] == Entry(k, NotFound, Pending)
  {
    if archives != [] {
      Step1NotFound(archives[..|archives| - 1], lookup, search);
    }
  }

  /** How the three sets grow by one archive. */
  lemma ArchivesStep(archives: seq<Archive>, i: nat, lookup: string -> Option<Project>, search: string -> Option<Project>)
    requires i < |archives|
    ensures var a := archives[i];
      && ArchiveKeys(archives[..i + 1], lookup, search) == ArchiveKeys(archives[..i], lookup, search) + {ArchiveKey(a, lookup, search)}
      && IdentifiedSlugs(archives[..i + 1], lookup, search) == IdentifiedSlugs(archives[..i], lookup, search)
           + (if Identified(a, lookup, search).Some? then {Identified(a, lookup, search).value.slug} else {})
      && UnidentifiedNames(archives[..i + 1], lookup, search) == UnidentifiedNames(archives[..i], lookup, search)
           + (if Identified(a, lookup, search).None? then {a.filename} else {})
  {
    assert archives[..i + 1][..i] == archives[..i];
  }

  /**
   * One iteration of Step 1. An identified archive whose slug is new is
   * queued; one whose slug was already seen changes nothing; an archive that
   * cannot be identified gets a Not Found entry under its file name.
   */
  method AnalyzeArchive(st: State, a: Archive, lookup: string -> Option<Project>, search: string -> Option<Project>)
    returns (r: State)
    requires Valid(st)
    ensures Valid(r)
    ensures var p := Identified(a, lookup, search);
      && (p.Some? && p.value.slug in st.seen ==> r == st)
      && (p.Some? && p.value.slug !in st.seen ==>
            && r.queue == st.queue + [p.value.slug]
            && r.processed == st.processed
            && r.seen == st.seen + {p.value.slug}
            && r.summary.entries == st.summary.entries[p.value.slug := Entry(p.value.title, Queued, Pending)])
      && (p.None? ==>
            && r.queue == st.queue && r.processed == st.processed && r.seen == st.seen
            && r.summary.entries == st.summary.entries[a.filename := Entry(a.filename, NotFound, Pending)])
    ensures r.downloads == st.downloads
    ensures var k := ArchiveKey(a, lookup, search);
      r.summary.order == if k in st.summary.order then st.summary.order else st.summary.order + [k]
  {
    var project := FindProject(a, lookup, search);
    if project.Some? && project.value.slug != "" {
      if project.value.slug !in st.seen {
        r := Enqueue(st, project.value.slug, project.value.title);
      } else {
        r := st;
      }
    } else {
      r := st.(summary := st.summary.Put(a.filename, Entry(a.filename, NotFound, Pending)));
    }
  }

  /**
   * What Step 1 has established after analysing `archives`: nothing has been
   * processed or fetched, every archive has an entry under its key, the seen
   * set is exactly the set of slugs the archives were identified as, and Not
   * Found entries belong to unidentified archives.
   */
  ghost predicate Analyzed(st: State, archives: seq<Archive>, lookup: string -> Option<Project>, search: string -> Option<Project>)
  {
    && st.processed == [] && st.downloads == []
    && ArchiveKeys(archives, lookup, search) <= st.summary.entries.Keys
    && st.seen == IdentifiedSlugs(archives, lookup, search)
    && (forall k :: k in st.summary.entries && st.summary.entries[k].status == NotFound ==>
          k in UnidentifiedNames(archives, lookup, search))
    && (forall k :: k in st.summary.entries ==> st.summary.entries[k].status in {Queued, NotFound})
  }

  /** Analysing one more archive, as AnalyzeArchive does, keeps Analyzed. */
  lemma AnalyzedStep(st: State, r: State, archives: seq<Archive>, i: nat,
                     lookup: string -> Option<Project>, search: string -> Option<Project>)
    requires i < |archives|
    requires st.seen <= st.summary.entries.Keys
    requires Analyzed(st, archives[..i], lookup, search)
    requires var a := archives[i];
      var p := Identified(a, lookup, search);
      && r.downloads == st.downloads
      && (p.Some? && p.value.slug in st.seen ==> r == st)
      && (p.Some? && p.value.slug !in st.seen ==>
            && r.processed == st.processed
            && r.seen == st.seen + {p.value.slug}
            && r.summary.entries == st.summary.entries[p.value.slug := Entry(p.value.title, Queued, Pending)])
      && (p.None? ==>
            && r.processed == st.processed && r.seen == st.seen
            && r.summary.entries == st.summary.entries[a.filename := Entry(a.filename, NotFound, Pending)])
    ensures Analyzed(r, archives[..i + 1], lookup, search)
  {
    ArchivesStep(archives, i, lookup, search);
  }

  /** The queue, the key order and the entries are those of the Step 1 reference definitions. */
  ghost predicate Step1Shape(st: State, archives: seq<Archive>, lookup: string -> Option<Project>, search: string -> Option<Project>)
  {
    && st.queue == QueueOrder(archives, lookup, search)
    && st.summary.order == SummaryOrder(archives, lookup, search)
    && st.summary.entries == Step1Entries(archives, lookup, search)
  }

  /** Analysing one more archive, as AnalyzeArchive does, follows the reference definitions. */
  lemma Step1ShapeStep(st: State, r: State, archives: seq<Archive>, i: nat,
                       lookup: string -> Option<Project>, search: string -> Option<Project>)
    requires i < |archives|
    requires st.seen == IdentifiedSlugs(archives[..i], lookup, search)
    requires Step1Shape(st, archives[..i], lookup, search)
    requires var a := archives[i];
      var p := Identified(a, lookup, search);
      var k := ArchiveKey(a, lookup, search);
      && r.summary.order == (if k in st.summary.order then st.summary.order else st.summary.order + [k])
      && (p.Some? && p.value.slug in st.seen ==> r == st)
      && (p.Some? && p.value.slug !in st.seen ==>
            && r.queue == st.queue + [p.value.slug]
            && r.summary.entries == st.summary.entries[p.value.slug := Entry(p.value.title, Queued, Pending)])
      && (p.None? ==>
            && r.queue == st.queue
            && r.summary.entries == st.summary.entries[a.filename := Entry(a.filename, NotFound, Pending)])
    ensures Step1Shape(r, archives[..i + 1], lookup, search)
  {
    ReferenceStep(archives, i, lookup, search);
  }

  /**
   * Step 1: every archive is analysed in turn. Afterwards the queue holds the
   * identified slugs in archive order, the summary holds the Step 1 entries
   * in the order their keys were first assigned, and Analyzed holds of all
   * the archives.
   */
  method AnalyzeArchives(archives: seq<Archive>, lookup: string -> Option<Project>, search: string -> Option<Project>)
    returns (st: State)
    ensures Valid(st)
    ensures Analyzed(st, archives, lookup, search)
    ensures st.queue == QueueOrder(archives, lookup, search)
    ensures st.summary.order == SummaryOrder(archives, lookup, search)
    ensures st.summary.entries == Step1Entries(archives, lookup, search)
  {
    st := Initial();
    for i := 0 to |archives|
      invariant Valid(st)
      invariant Analyzed(st, archives[..i], lookup, search)
      invariant Step1Shape(st, archives[..i], lookup, search)
    {
      ghost var before := st;
      st := AnalyzeArchive(st, archives[i], lookup, search);
      AnalyzedStep(before, st, archives, i, lookup, search);
      Step1ShapeStep(before, st, archives, i, lookup, search);
    }
    assert archives[..|archives|] == archives;
  }

  /**
   * A dependency main() follows: it is required and the registry knows its
   * project id (an empty id is never looked up).
   */
  predicate IsRequiredTarget(d: Dependency, lookup: string -> Option<Project>)
  {
    d.dependencyType == "required" && GetProjectFromId(lookup, d.projectId).Some?
  }

  /** The project ids of the dependencies main() follows. */
  ghost function RequiredTargets(deps: seq<Dependency>, lookup: string -> Option<Project>): set<string>
  {
    set d | d in deps && IsRequiredTarget(d, lookup) :: d.projectId
  }

  /**
   * Reference definition of the ids the dependency loop appends to the queue,
   * in order: each followed dependency whose id is neither seen before the
   * loop nor appended earlier in the same loop.
   */
  function NewDependencies(deps: seq<Dependency>, seen: set<string>, lookup: string -> Option<Project>): (r: seq<string>)
    ensures NoDuplicates(r)
    ensures forall s :: s in r ==> s !in seen && s != "" && lookup(s).Some?
    decreases |deps|
  {
    if deps == [] then []
    else
      var earlier := NewDependencies(deps[..|deps| - 1], seen, lookup);
      var d := deps[|deps| - 1];
      if IsRequiredTarget(d, lookup) && d.projectId !in seen && d.projectId !in earlier then
        NoDuplicatesAppend(earlier, d.projectId);
        earlier + [d.projectId]
      else
        earlier
  }

  /** Every appended id is the id of a followed dependency. */
  lemma {:induction false} NewDependenciesSound(deps: seq<Dependency>, seen: set<string>, lookup: string -> Option<Project>)
    ensures forall s :: s in NewDependencies(deps, seen, lookup) ==> s in RequiredTargets(deps, lookup)
    decreases |deps|
  {
    if deps != [] {
      var init := deps[..|deps| - 1];
      NewDependenciesSound(init, seen, lookup);
      assert forall e :: e in init ==> e in deps;
      assert deps[|deps| - 1] in deps;
    }
  }

  /** Every followed dependency is seen afterwards: it was seen before or it is appended. */
  lemma {:induction false} NewDependenciesComplete(deps: seq<Dependency>, seen: set<string>, lookup: string -> Option<Project>)
    ensures forall t :: t in RequiredTargets(deps, lookup) ==> t in seen || t in NewDependencies(deps, seen, lookup)
    decreases |deps|
  {
    if deps != [] {
      var init := deps[..|deps| - 1];
      NewDependenciesComplete(init, seen, lookup);
      assert deps == init + [deps[|deps| - 1]];
    }
  }

  /** The title the registry gives a project id; "" when it does not know the id. */
  function RegistryTitle(lookup: string -> Option<Project>, id: string): string
  {
    if lookup(id).Some? then lookup(id).value.title else ""
  }

  /**
   * One iteration of the dependency loop: a followed dependency whose id has
   * not been seen is appended to the queue with a Queued entry; anything else
   * changes nothing.
   */
  method FollowDependency(st: State, dep: Dependency, lookup: string -> Option<Project>) returns (r: State)
    requires Valid(st)
    ensures Valid(r)
    ensures IsRequiredTarget(dep, lookup) && dep.projectId !in st.seen ==>
      && r.queue == st.queue + [dep.projectId]
      && r.seen == st.seen + {dep.projectId}
      && r.summary.entries == st.summary.entries[dep.projectId := Entry(RegistryTitle(lookup, dep.projectId), Queued, Pending)]
      && r.summary.order == if dep.projectId in st.summary.order then st.summary.order else st.summary.order + [dep.projectId]
    ensures !(IsRequiredTarget(dep, lookup) && dep.projectId !in st.seen) ==> r == st
    ensures r.processed == st.processed && r.downloads == st.downloads
  {
    r := st;
    if dep.dependencyType == "required" {
      var depId := dep.projectId;
      if depId != "" && depId !in st.seen {
        var details := GetProjectFromId(lookup, depId);
        if details.Some? {
          r := Enqueue(st, depId, details.value.title);
        }
      }
    }
  }

  /** The summary entries after assigning a Queued entry to each id of `ids`, in order. */
  ghost function WithQueued(m: map<string, Entry>, ids: seq<string>, lookup: string -> Option<Project>): map<string, Entry>
    decreases |ids|
  {
    if ids == [] then m
    else
      var last := ids[|ids| - 1];
      WithQueued(m, ids[..|ids| - 1], lookup)[last := Entry(RegistryTitle(lookup, last), Queued, Pending)]
  }

  lemma {:induction false} WithQueuedEntries(m: map<string, Entry>, ids: seq<string>, lookup: string -> Option<Project>)
    ensures forall k :: k in WithQueued(m, ids, lookup) <==> k in m || k in ids
    ensures forall k :: k in ids ==> WithQueued(m, ids, lookup)[k] == Entry(RegistryTitle(lookup, k), Queued, Pending)
    ensures forall k :: k in m && k !in ids ==> WithQueued(m, ids, lookup)[k] == m[k]
    decreases |ids|
  {
    if ids != [] {
      var init := ids[..|ids| - 1];
      WithQueuedEntries(m, init, lookup);
      assert ids == init + [ids[|ids| - 1]];
    }
  }

  /**
   * `r` is `st` with the ids `added` appended to the queue, each with a Queued
   * entry titled from the registry, and nothing else changed.
   */
  ghost predicate Appended(st: State, r: State, added: seq<string>, lookup: string -> Option<Project>)
  {
    && r.processed == st.processed && r.downloads == st.downloads
    && r.queue == st.queue + added
    && r.summary.entries == WithQueued(st.summary.entries, added, lookup)
    && r.summary.order == AppendNew(st.summary.order, added)
  }

  /** One iteration of the dependency loop keeps the loop's invariant. */
  lemma ExpandStep(st: State, r0: State, r1: State, deps: seq<Dependency>, i: nat, lookup: string -> Option<Project>)
    requires i < |deps|
    requires Appended(st, r0, NewDependencies(deps[..i], st.seen, lookup), lookup)
    requires forall s :: s in r0.seen <==> s in st.seen || s in NewDependencies(deps[..i], st.seen, lookup)
    requires var dep := deps[i];
      && r1.processed == r0.processed && r1.downloads == r0.downloads
      && (IsRequiredTarget(dep, lookup) && dep.projectId !in r0.seen ==>
            && r1.queue == r0.queue + [dep.projectId]
            && r1.seen == r0.seen + {dep.projectId}
            && r1.summary.entries == r0.summary.entries[dep.projectId := Entry(RegistryTitle(lookup, dep.projectId), Queued, Pending)]
            && r1.summary.order == if dep.projectId in r0.summary.order then r0.summary.order else r0.summary.order + [dep.projectId])
      && (!(IsRequiredTarget(dep, lookup) && dep.projectId !in r0.seen) ==> r1 == r0)
    ensures Appended(st, r1, NewDependencies(deps[..i + 1], st.seen, lookup), lookup)
    ensures forall s :: s in r1.seen <==> s in st.seen || s in NewDependencies(deps[..i + 1], st.seen, lookup)
  {
    var dep := deps[i];
    var added := NewDependencies(deps[..i], st.seen, lookup);
    assert deps[..i + 1][..i] == deps[..i];
    assert deps[..i + 1][i] == dep;
    if IsRequiredTarget(dep, lookup) && dep.projectId !in r0.seen {
      var grown := added + [dep.projectId];
      assert NewDependencies(deps[..i + 1], st.seen, lookup) == grown;
      assert grown[..|grown| - 1] == added;
      assert r0.queue + [dep.projectId] == st.queue + grown;
    } else {
      assert NewDependencies(deps[..i + 1], st.seen, lookup) == added;
    }
  }

  /**
   * The dependency loop of Step 2 over the chosen version's dependencies. The
   * queue grows by exactly NewDependencies, each appended id gets a Queued
   * entry titled from the registry, and every other entry is unchanged.
   */
  method ExpandDependencies(st: State, deps: seq<Dependency>, lookup: string -> Option<Project>) returns (r: State)
    requires Valid(st)
    ensures Valid(r)
    ensures r.queue == st.queue + NewDependencies(deps, st.seen, lookup)
    ensures r.processed == st.processed && r.downloads == st.downloads
    ensures forall s :: s in r.seen <==> s in st.seen || s in NewDependencies(deps, st.seen, lookup)
    ensures r.summary.entries == WithQueued(st.summary.entries, NewDependencies(deps, st.seen, lookup), lookup)
    ensures forall k :: k in r.summary.entries <==> k in st.summary.entries || k in NewDependencies(deps, st.seen, lookup)
    ensures forall k :: k in NewDependencies(deps, st.seen, lookup) ==>
      r.summary.entries[k] == Entry(RegistryTitle(lookup, k), Queued, Pending)
    ensures forall k :: k in st.summary.entries && k !in NewDependencies(deps, st.seen, lookup) ==>
      r.summary.entries[k] == st.summary.entries[k]
    ensures r.summary.order == AppendNew(st.summary.order, NewDependencies(deps, st.seen, lookup))
  {
    r := st;
    assert deps[..0] == [];
    for i := 0 to |deps|
      invariant Valid(r)
      invariant Appended(st, r, NewDependencies(deps[..i], st.seen, lookup), lookup)
      invariant forall s :: s in r.seen <==> s in st.seen || s in NewDependencies(deps[..i], st.seen, lookup)
    {
      ghost var before := r;
      r := FollowDependency(r, deps[i], lookup);
      ExpandStep(st, before, r, deps, i, lookup);
    }
    assert deps[..|deps|] == deps;
    WithQueuedEntries(st.summary.entries, NewDependencies(deps, st.seen, lookup), lookup);
  }

  /** The status a processed slug ends with, given the version chosen for it. */
  function ProcessedStatus(latest: Option<Version>, dryRun: bool): Status
  {
    if latest.None? then NoUpdate else if dryRun then WouldUpdate else Updated
  }

  /** The version a processed slug is reported with. */
  function ProcessedVersion(latest: Option<Version>): string
  {
    if latest.None? then NoVersion else latest.value.number
  }

  /** The entry a processed slug ends with: its title kept, its status and version set. */
  function Verdict(title: string, latest: Option<Version>, dryRun: bool): Entry
  {
    Entry(title, ProcessedStatus(latest, dryRun), ProcessedVersion(latest))
  }

  /**
   * What download_version fetches for the chosen version: its primary file,
   * and nothing on a dry run, without a chosen version or without a primary file.
   */
  function Fetched(latest: Option<Version>, dryRun: bool): (r: seq<File>)
    ensures |r| <= 1
    ensures r != [] <==> !dryRun && latest.Some? && exists f :: f in latest.value.files && f.primary
    ensures r != [] ==> r == [latest.value.files[FirstPrimary(latest.value.files)]]
  {
    if !dryRun && latest.Some? && PrimaryFile(latest.value.files).Some? then [PrimaryFile(latest.value.files).value] else []
  }

  /**
   * Taking the head of the queue off and recording its verdict: the entry is
   * overwritten in place (it keeps its position) and the fetched files are
   * appended to the downloads.
   */
  function Dequeue(st: State, e: Entry, fetched: seq<File>): (r: State)
    requires Valid(st) && st.queue != [] && e.status != Queued
    ensures Valid(r)
    ensures r.queue == st.queue[1..] && r.processed == st.processed + [st.queue[0]] && r.seen == st.seen
    ensures r.summary.entries == st.summary.entries[st.queue[0] := e] && r.summary.order == st.summary.order
    ensures r.downloads == st.downloads + fetched
  {
    var slug := st.queue[0];
    NoDuplicatesAppend(st.processed, slug);
    State(st.queue[1..], st.seen, st.processed + [slug], st.summary.Put(slug, e), st.downloads + fetched)
  }

  /**
   * One iteration of Step 2: the head of the queue is taken off and its
   * version list filtered. Without a compatible version the entry becomes
   * No Update / N/A. Otherwise the first candidate is chosen, its primary file
   * fetched (unless dry run), the entry becomes Updated (Would Update on a dry
   * run) with the chosen version number, and its dependencies are followed.
   */
  method ProcessNext(st: State, gameVersion: string, loader: string, dryRun: bool,
                     lookup: string -> Option<Project>, versions: string -> seq<Version>) returns (r: State)
    requires Valid(st) && st.queue != []
    ensures Valid(r)
    ensures var slug := st.queue[0];
      var latest := Latest(versions(slug), gameVersion, loader);
      var added := if latest.Some? then NewDependencies(latest.value.dependencies, st.seen, lookup) else [];
      && r.queue == st.queue[1..] + added
      && r.processed == st.processed + [slug]
      && (forall s :: s in r.seen <==> s in st.seen || s in added)
      && r.downloads == st.downloads + Fetched(latest, dryRun)
      && r.summary.entries == WithQueued(st.summary.entries[slug := Verdict(st.summary.entries[slug].title, latest, dryRun)], added, lookup)
      && r.summary.order == AppendNew(st.summary.order, added)
  {
    var slug := st.queue[0];
    var entry := st.summary.entries[slug];
    var candidates := FilterVersions(versions(slug), gameVersion, loader);
    if candidates == [] {
      r := Dequeue(st, Entry(entry.title, NoUpdate, NoVersion), []);
    } else {
      var latest := candidates[0];
      var fetched := [];
      var primary := PrimaryFile(latest.files);
      if primary.Some? && !dryRun {
        fetched := [primary.value];
      }
      var status := if dryRun then WouldUpdate else Updated;
      r := Dequeue(st, Entry(entry.title, status, latest.number), fetched);
      r := ExpandDependencies(r, latest.dependencies, lookup);
    }
  }

  /** The files fetched while processing the given slugs in order. */
  function FetchedAll(slugs: seq<string>, gameVersion: string, loader: string, dryRun: bool,
                      versions: string -> seq<Version>): (r: seq<File>)
    ensures dryRun ==> r == []
    ensures forall f :: f in r ==> f.primary
    ensures |r| <= |slugs|
  {
    if slugs == [] then []
    else
      FetchedAll(slugs[..|slugs| - 1], gameVersion, loader, dryRun, versions)
        + Fetched(Latest(versions(slugs[|slugs| - 1]), gameVersion, loader), dryRun)
  }

  /** Every downloaded file is the fetched primary file of some processed slug. */
  lemma {:induction false} FetchedAllSound(slugs: seq<string>, gameVersion: string, loader: string, dryRun: bool,
                                           versions: string -> seq<Version>, f: File)
    requires f in FetchedAll(slugs, gameVersion, loader, dryRun, versions)
    ensures exists i :: 0 <= i < |slugs| && f in Fetched(Latest(versions(slugs[i]), gameVersion, loader), dryRun)
    decreases |slugs|
  {
    var init := slugs[..|slugs| - 1];
    if f in FetchedAll(init, gameVersion, loader, dryRun, versions) {
      FetchedAllSound(init, gameVersion, loader, dryRun, versions, f);
      var i :| 0 <= i < |init| && f in Fetched(Latest(versions(init[i]), gameVersion, loader), dryRun);
      assert slugs[i] == init[i];
    } else {
      assert f in Fetched(Latest(versions(slugs[|slugs| - 1]), gameVersion, loader), dryRun);
    }
  }

  /** The fetched primary file of every processed slug is downloaded. */
  lemma {:induction false} FetchedAllComplete(slugs: seq<string>, gameVersion: string, loader: string, dryRun: bool,
                                              versions: string -> seq<Version>, i: nat, f: File)
    requires i < |slugs| && f in Fetched(Latest(versions(slugs[i]), gameVersion, loader), dryRun)
    ensures f in FetchedAll(slugs, gameVersion, loader, dryRun, versions)
    decreases |slugs|
  {
    var init := slugs[..|slugs| - 1];
    var last := Fetched(Latest(versions(slugs[|slugs| - 1]), gameVersion, loader), dryRun);
    assert FetchedAll(slugs, gameVersion, loader, dryRun, versions) == FetchedAll(init, gameVersion, loader, dryRun, versions) + last;
    if i < |init| {
      assert init[i] == slugs[i];
      FetchedAllComplete(init, gameVersion, loader, dryRun, versions, i, f);
    } else {
      assert i == |slugs| - 1;
    }
  }

  /**
   * The relation between the states before and after one iteration of Step 2,
   * as ProcessNext ensures it.
   */
  ghost predicate Stepped(st: State, r: State, gameVersion: string, loader: string, dryRun: bool,
                          lookup: string -> Option<Project>, versions: string -> seq<Version>)
  {
    && st.queue != [] && st.queue[0] in st.summary.entries
    && var slug := st.queue[0];
      var latest := Latest(versions(slug), gameVersion, loader);
      var added := if latest.Some? then NewDependencies(latest.value.dependencies, st.seen, lookup) else [];
      && r.queue == st.queue[1..] + added
      && r.processed == st.processed + [slug]
      && (forall s :: s in r.seen <==> s in st.seen || s in added)
      && r.downloads == st.downloads + Fetched(latest, dryRun)
      && r.summary.entries == WithQueued(st.summary.entries[slug := Verdict(st.summary.entries[slug].title, latest, dryRun)], added, lookup)
  }

  /**
   * What Step 2 keeps true of every state it reaches: identified slugs stay
   * seen, archive keys stay present, each processed slug reports its verdict
   * and has its followed dependencies seen, entries never seen are the Not
   * Found entries of unidentified archives, and the downloads are the primary
   * files of the processed slugs' chosen versions.
   */
  ghost predicate Settled(st: State, archives: seq<Archive>, gameVersion: string, loader: string, dryRun: bool,
                          lookup: string -> Option<Project>, search: string -> Option<Project>,
                          versions: string -> seq<Version>)
  {
    && IdentifiedSlugs(archives, lookup, search) <= st.seen
    && ArchiveKeys(archives, lookup, search) <= st.summary.entries.Keys
    && (forall s :: s in st.processed ==>
          && s in st.summary.entries
          && st.summary.entries[s].status == ProcessedStatus(Latest(versions(s), gameVersion, loader), dryRun)
          && st.summary.entries[s].version == ProcessedVersion(Latest(versions(s), gameVersion, loader)))
    && (forall s :: s in st.processed && Latest(versions(s), gameVersion, loader).Some? ==>
          RequiredTargets(Latest(versions(s), gameVersion, loader).value.dependencies, lookup) <= st.seen)
    && (forall k :: k in st.summary.entries && k !in st.seen ==>
          st.summary.entries[k] == Entry(k, NotFound, Pending) && k in UnidentifiedNames(archives, lookup, search))
    && st.downloads == FetchedAll(st.processed, gameVersion, loader, dryRun, versions)
  }

  /** The summary after one iteration of Step 2, key by key. */
  lemma SteppedEntries(st: State, r: State, gameVersion: string, loader: string, dryRun: bool,
                       lookup: string -> Option<Project>, versions: string -> seq<Version>)
    requires Valid(st)
    requires Stepped(st, r, gameVersion, loader, dryRun, lookup, versions)
    ensures var slug := st.queue[0];
      var latest := Latest(versions(slug), gameVersion, loader);
      var added := if latest.Some? then NewDependencies(latest.value.dependencies, st.seen, lookup) else [];
      && slug !in added
      && slug in r.summary.entries
      && r.summary.entries[slug] == Verdict(st.summary.entries[slug].title, latest, dryRun)
      && (forall k :: k in r.summary.entries <==> k in st.summary.entries || k in added)
      && (forall k :: k in added ==> r.summary.entries[k] == Entry(RegistryTitle(lookup, k), Queued, Pending))
      && (forall k :: k in st.summary.entries && k != slug && k !in added ==> r.summary.entries[k] == st.summary.entries[k])
  {
    var slug := st.queue[0];
    var latest := Latest(versions(slug), gameVersion, loader);
    var added := if latest.Some? then NewDependencies(latest.value.dependencies, st.seen, lookup) else [];
    assert slug in st.seen;
    WithQueuedEntries(st.summary.entries[slug := Verdict(st.summary.entries[slug].title, latest, dryRun)], added, lookup);
  }

  /** Processed slugs keep reporting their verdicts, and the new one reports its own. */
  lemma SteppedVerdicts(st: State, r: State, gameVersion: string, loader: string, dryRun: bool,
                        lookup: string -> Option<Project>, versions: string -> seq<Version>)
    requires Valid(st)
    requires Stepped(st, r, gameVersion, loader, dryRun, lookup, versions)
    requires forall s :: s in st.processed ==>
      && s in st.summary.entries
      && st.summary.entries[s].status == ProcessedStatus(Latest(versions(s), gameVersion, loader), dryRun)
      && st.summary.entries[s].version == ProcessedVersion(Latest(versions(s), gameVersion, loader))
    ensures forall s :: s in r.processed ==>
      && s in r.summary.entries
      && r.summary.entries[s].status == ProcessedStatus(Latest(versions(s), gameVersion, loader), dryRun)
      && r.summary.entries[s].version == ProcessedVersion(Latest(versions(s), gameVersion, loader))
  {
    var slug := st.queue[0];
    var latest := Latest(versions(slug), gameVersion, loader);
    var added := if latest.Some? then NewDependencies(latest.value.dependencies, st.seen, lookup) else [];
    SteppedEntries(st, r, gameVersion, loader, dryRun, lookup, versions);
    forall s | s in r.processed
      ensures && s in r.summary.entries
              && r.summary.entries[s].status == ProcessedStatus(Latest(versions(s), gameVersion, loader), dryRun)
              && r.summary.entries[s].version == ProcessedVersion(Latest(versions(s), gameVersion, loader))
    {
      if s != slug {
        assert s in st.processed && s in st.seen;
        assert s !in added;
      }
    }
  }

  /** The dependency closure holds for the processed slugs, including the new one. */
  lemma SteppedClosure(st: State, r: State, gameVersion: string, loader: string, dryRun: bool,
                       lookup: string -> Option<Project>, versions: string -> seq<Version>)
    requires Stepped(st, r, gameVersion, loader, dryRun, lookup, versions)
    requires forall s :: s in st.processed && Latest(versions(s), gameVersion, loader).Some? ==>
      RequiredTargets(Latest(versions(s), gameVersion, loader).value.dependencies, lookup) <= st.seen
    ensures forall s :: s in r.processed && Latest(versions(s), gameVersion, loader).Some? ==>
      RequiredTargets(Latest(versions(s), gameVersion, loader).value.dependencies, lookup) <= r.seen
  {
    var slug := st.queue[0];
    var latest := Latest(versions(slug), gameVersion, loader);
    if latest.Some? {
      NewDependenciesComplete(latest.value.dependencies, st.seen, lookup);
    }
    assert st.seen <= r.seen;
  }

  /** Entries never seen stay the Not Found entries of unidentified archives, titled by their file names. */
  lemma SteppedUnseen(st: State, r: State, names: set<string>, gameVersion: string, loader: string, dryRun: bool,
                      lookup: string -> Option<Project>, versions: string -> seq<Version>)
    requires Valid(st)
    requires Stepped(st, r, gameVersion, loader, dryRun, lookup, versions)
    requires forall k :: k in st.summary.entries && k !in st.seen ==>
      st.summary.entries[k] == Entry(k, NotFound, Pending) && k in names
    ensures forall k :: k in r.summary.entries && k !in r.seen ==>
      r.summary.entries[k] == Entry(k, NotFound, Pending) && k in names
  {
    var slug := st.queue[0];
    var latest := Latest(versions(slug), gameVersion, loader);
    var added := if latest.Some? then NewDependencies(latest.value.dependencies, st.seen, lookup) else [];
    SteppedEntries(st, r, gameVersion, loader, dryRun, lookup, versions);
    forall k | k in r.summary.entries && k !in r.seen
      ensures r.summary.entries[k] == Entry(k, NotFound, Pending) && k in names
    {
      assert k in st.summary.entries && k != slug && k !in added;
    }
  }

  /** The downloads grow by the primary file of the version chosen for the processed slug. */
  lemma SteppedDownloads(st: State, r: State, gameVersion: string, loader: string, dryRun: bool,
                         lookup: string -> Option<Project>, versions: string -> seq<Version>)
    requires Stepped(st, r, gameVersion, loader, dryRun, lookup, versions)
    requires st.downloads == FetchedAll(st.processed, gameVersion, loader, dryRun, versions)
    ensures r.downloads == FetchedAll(r.processed, gameVersion, loader, dryRun, versions)
  {
    assert r.processed[..|st.processed|] == st.processed;
  }

  /** The ids one iteration of Step 2 appends to the queue. */
  ghost function NewlyQueued(st: State, gameVersion: string, loader: string,
                             lookup: string -> Option<Project>, versions: string -> seq<Version>): seq<string>
    requires st.queue != []
  {
    var latest := Latest(versions(st.queue[0]), gameVersion, loader);
    if latest.Some? then NewDependencies(latest.value.dependencies, st.seen, lookup) else []
  }

  /**
   * Reference definition of the breadth-first order in which Step 2 meets
   * the slugs: the initial queue `q0`, then, for each slug of `ps` in turn,
   * the new required dependencies of the version chosen for it.
   */
  ghost function Discovered(ps: seq<string>, q0: seq<string>, gameVersion: string, loader: string,
                            lookup: string -> Option<Project>, versions: string -> seq<Version>): seq<string>
    decreases |ps|
  {
    if ps == [] then q0
    else
      var d := Discovered(ps[..|ps| - 1], q0, gameVersion, loader, lookup, versions);
      var latest := Latest(versions(ps[|ps| - 1]), gameVersion, loader);
      d + (if latest.Some? then NewDependencies(latest.value.dependencies, Elems(d), lookup) else [])
  }

  /**
   * Every slug of `ps` had already been discovered when its turn came: the
   * j-th slug processed is within what the first j slugs had discovered.
   * Together with `ps == Discovered(ps, ..)` this pins `ps` down (see
   * BreadthFirstUnique).
   */
  ghost predicate Served(ps: seq<string>, q0: seq<string>, gameVersion: string, loader: string,
                         lookup: string -> Option<Project>, versions: string -> seq<Version>)
  {
    forall j :: 0 <= j < |ps| ==> j < |Discovered(ps[..j], q0, gameVersion, loader, lookup, versions)|
  }

  /** What a prefix of `ps` discovers is a prefix of what `ps` discovers. */
  lemma {:induction false} DiscoveredPrefix(ps: seq<string>, j: nat, q0: seq<string>, gameVersion: string, loader: string,
                                            lookup: string -> Option<Project>, versions: string -> seq<Version>)
    requires j <= |ps|
    ensures Discovered(ps[..j], q0, gameVersion, loader, lookup, versions)
         <= Discovered(ps, q0, gameVersion, loader, lookup, versions)
    decreases |ps| - j
  {
    if j == |ps| {
      assert ps[..j] == ps;
    } else {
      var init := ps[..|ps| - 1];
      assert init[..j] == ps[..j];
      DiscoveredPrefix(init, j, q0, gameVersion, loader, lookup, versions);
    }
  }

  /** In a breadth-first run, the k-th slug is the k-th slug discovered by the first k. */
  lemma BreadthFirstNext(a: seq<string>, q0: seq<string>, gameVersion: string, loader: string,
                         lookup: string -> Option<Project>, versions: string -> seq<Version>)
    requires a == Discovered(a, q0, gameVersion, loader, lookup, versions) && Served(a, q0, gameVersion, loader, lookup, versions)
    ensures forall k :: 0 <= k < |a| ==>
      k < |Discovered(a[..k], q0, gameVersion, loader, lookup, versions)| &&
      a[k] == Discovered(a[..k], q0, gameVersion, loader, lookup, versions)[k]
  {
    forall k | 0 <= k < |a|
      ensures k < |Discovered(a[..k], q0, gameVersion, loader, lookup, versions)|
      ensures a[k] == Discovered(a[..k], q0, gameVersion, loader, lookup, versions)[k]
    {
      DiscoveredPrefix(a, k, q0, gameVersion, loader, lookup, versions);
    }
  }

  /**
   * Two sequences each of whose elements is the one `discover` yields for the
   * prefix before it agree on their common prefix.
   */
  lemma {:induction false} PrefixDeterminedAgree(a: seq<string>, b: seq<string>, k: nat, discover: seq<string> -> seq<string>)
    requires forall j :: 0 <= j < |a| ==> j < |discover(a[..j])| && a[j] == discover(a[..j])[j]
    requires forall j :: 0 <= j < |b| ==> j < |discover(b[..j])| && b[j] == discover(b[..j])[j]
    requires k <= |a| && k <= |b|
    ensures a[..k] == b[..k]
  {
    if k > 0 {
      PrefixDeterminedAgree(a, b, k - 1, discover);
      assert a[..k] == a[..k - 1] + [a[k - 1]];
      assert b[..k] == b[..k - 1] + [b[k - 1]];
    }
  }

  /** A breadth-first run cannot stop while a longer one extending it goes on. */
  lemma BreadthFirstNotPrefix(a: seq<string>, b: seq<string>, q0: seq<string>, gameVersion: string, loader: string,
                              lookup: string -> Option<Project>, versions: string -> seq<Version>)
    requires a == Discovered(a, q0, gameVersion, loader, lookup, versions)
    requires Served(b, q0, gameVersion, loader, lookup, versions)
    requires |a| < |b|
    ensures b[..|a|] != a
  {
    assert |a| < |Discovered(b[..|a|], q0, gameVersion, loader, lookup, versions)|;
  }

  /**
   * The processing order Step 2 ends with is determined by the inputs: any two
   * sequences that are both fixpoints of Discovered and Served are equal.
   */
  lemma BreadthFirstUnique(a: seq<string>, b: seq<string>, q0: seq<string>, gameVersion: string, loader: string,
                           lookup: string -> Option<Project>, versions: string -> seq<Version>)
    requires a == Discovered(a, q0, gameVersion, loader, lookup, versions) && Served(a, q0, gameVersion, loader, lookup, versions)
    requires b == Discovered(b, q0, gameVersion, loader, lookup, versions) && Served(b, q0, gameVersion, loader, lookup, versions)
    ensures a == b
  {
    BreadthFirstNext(a, q0, gameVersion, loader, lookup, versions);
    BreadthFirstNext(b, q0, gameVersion, loader, lookup, versions);
    var discover := ps => Discovered(ps, q0, gameVersion, loader, lookup, versions);
    if |a| < |b| {
      BreadthFirstNotPrefix(a, b, q0, gameVersion, loader, lookup, versions);
      PrefixDeterminedAgree(a, b, |a|, discover);
      assert false;
    } else if |b| < |a| {
      BreadthFirstNotPrefix(b, a, q0, gameVersion, loader, lookup, versions);
      PrefixDeterminedAgree(a, b, |b|, discover);
      assert false;
    } else {
      PrefixDeterminedAgree(a, b, |a|, discover);
    }
  }

  /** The required dependencies, known to the registry, of the versions chosen for the slugs `ps`. */
  ghost function DependencyTargets(ps: seq<string>, gameVersion: string, loader: string,
                                   lookup: string -> Option<Project>, versions: string -> seq<Version>): set<string>
    decreases |ps|
  {
    if ps == [] then {}
    else
      var latest := Latest(versions(ps[|ps| - 1]), gameVersion, loader);
      DependencyTargets(ps[..|ps| - 1], gameVersion, loader, lookup, versions)
        + (if latest.Some? then RequiredTargets(latest.value.dependencies, lookup) else {})
  }

  /**
   * The title a seen slug is reported with: the title of its Step 1 entry
   * when an archive was identified as it, the registry's title otherwise.
   */
  ghost function QueuedTitle(s: string, archives: seq<Archive>, lookup: string -> Option<Project>, search: string -> Option<Project>): string
  {
    var m := Step1Entries(archives, lookup, search);
    if s in IdentifiedSlugs(archives, lookup, search) && s in m then m[s].title else RegistryTitle(lookup, s)
  }

  /**
   * What Step 2 keeps true of the order of discovery: the processed slugs
   * followed by the queue are the breadth-first discovery order from the
   * Step 1 queue, the summary keys are the Step 1 keys followed by those
   * slugs, every seen slug keeps the title it was queued with, and every seen
   * slug is identified or a followed dependency of a processed slug.
   */
  ghost predicate Traced(st: State, archives: seq<Archive>, gameVersion: string, loader: string,
                         lookup: string -> Option<Project>, search: string -> Option<Project>,
                         versions: string -> seq<Version>)
  {
    && st.summary.order == AppendNew(SummaryOrder(archives, lookup, search), st.processed + st.queue)
    && st.processed + st.queue == Discovered(st.processed, QueueOrder(archives, lookup, search), gameVersion, loader, lookup, versions)
    && Served(st.processed, QueueOrder(archives, lookup, search), gameVersion, loader, lookup, versions)
    && (forall s :: s in st.seen ==> s in st.summary.entries && st.summary.entries[s].title == QueuedTitle(s, archives, lookup, search))
    && st.seen <= IdentifiedSlugs(archives, lookup, search) + DependencyTargets(st.processed, gameVersion, loader, lookup, versions)
  }

  /** Taking the head off the queue and appending `added` keeps processed-then-queued in order. */
  lemma ShiftQueue(st: State, r: State, added: seq<string>)
    requires st.queue != []
    requires r.processed == st.processed + [st.queue[0]] && r.queue == st.queue[1..] + added
    ensures r.processed + r.queue == (st.processed + st.queue) + added
  {
    assert st.queue == [st.queue[0]] + st.queue[1..];
  }

  /** The key order stays that of assigning the processed and queued slugs after the Step 1 keys. */
  lemma SteppedOrder(st: State, r: State, order0: seq<string>, gameVersion: string, loader: string, dryRun: bool,
                     lookup: string -> Option<Project>, versions: string -> seq<Version>)
    requires Stepped(st, r, gameVersion, loader, dryRun, lookup, versions)
    requires r.summary.order == AppendNew(st.summary.order, NewlyQueued(st, gameVersion, loader, lookup, versions))
    requires st.summary.order == AppendNew(order0, st.processed + st.queue)
    ensures r.summary.order == AppendNew(order0, r.processed + r.queue)
  {
    var added := NewlyQueued(st, gameVersion, loader, lookup, versions);
    ShiftQueue(st, r, added);
    AppendNewConcat(order0, st.processed + st.queue, added);
  }

  /** The slugs processed or waiting are always the breadth-first discovery order. */
  lemma SteppedDiscovery(st: State, r: State, q0: seq<string>, gameVersion: string, loader: string, dryRun: bool,
                         lookup: string -> Option<Project>, versions: string -> seq<Version>)
    requires forall s :: s in st.seen <==> s in st.processed || s in st.queue
    requires Stepped(st, r, gameVersion, loader, dryRun, lookup, versions)
    requires st.processed + st.queue == Discovered(st.processed, q0, gameVersion, loader, lookup, versions)
    ensures r.processed + r.queue == Discovered(r.processed, q0, gameVersion, loader, lookup, versions)
  {
    var added := NewlyQueued(st, gameVersion, loader, lookup, versions);
    ShiftQueue(st, r, added);
    var d := st.processed + st.queue;
    assert Elems(d) == st.seen;
    assert r.processed[..|r.processed| - 1] == st.processed;
  }

  /** The slug taken off the queue had been discovered by the slugs processed before it. */
  lemma SteppedServed(st: State, r: State, q0: seq<string>, gameVersion: string, loader: string, dryRun: bool,
                      lookup: string -> Option<Project>, versions: string -> seq<Version>)
    requires Stepped(st, r, gameVersion, loader, dryRun, lookup, versions)
    requires st.processed + st.queue == Discovered(st.processed, q0, gameVersion, loader, lookup, versions)
    requires Served(st.processed, q0, gameVersion, loader, lookup, versions)
    ensures Served(r.processed, q0, gameVersion, loader, lookup, versions)
  {
    forall j | 0 <= j < |r.processed|
      ensures j < |Discovered(r.processed[..j], q0, gameVersion, loader, lookup, versions)|
    {
      if j < |st.processed| {
        assert r.processed[..j] == st.processed[..j];
      } else {
        assert r.processed[..j] == st.processed;
      }
    }
  }

  /** Every seen slug keeps the title it was queued with. */
  lemma SteppedTitles(st: State, r: State, archives: seq<Archive>, gameVersion: string, loader: string, dryRun: bool,
                      lookup: string -> Option<Project>, search: string -> Option<Project>,
                      versions: string -> seq<Version>)
    requires Valid(st)
    requires Stepped(st, r, gameVersion, loader, dryRun, lookup, versions)
    requires IdentifiedSlugs(archives, lookup, search) <= st.seen
    requires forall s :: s in st.seen ==> s in st.summary.entries && st.summary.entries[s].title == QueuedTitle(s, archives, lookup, search)
    ensures forall s :: s in r.seen ==> s in r.summary.entries && r.summary.entries[s].title == QueuedTitle(s, archives, lookup, search)
  {
    var slug := st.queue[0];
    var latest := Latest(versions(slug), gameVersion, loader);
    var added := if latest.Some? then NewDependencies(latest.value.dependencies, st.seen, lookup) else [];
    SteppedEntries(st, r, gameVersion, loader, dryRun, lookup, versions);
    forall s | s in r.seen
      ensures s in r.summary.entries && r.summary.entries[s].title == QueuedTitle(s, archives, lookup, search)
    {
      if s in added {
        assert s !in IdentifiedSlugs(archives, lookup, search);
      }
    }
  }

  /** Every seen slug is an identified slug or a followed dependency of a processed slug. */
  lemma SteppedBound(st: State, r: State, archives: seq<Archive>, gameVersion: string, loader: string, dryRun: bool,
                     lookup: string -> Option<Project>, search: string -> Option<Project>,
                     versions: string -> seq<Version>)
    requires Stepped(st, r, gameVersion, loader, dryRun, lookup, versions)
    requires st.seen <= IdentifiedSlugs(archives, lookup, search) + DependencyTargets(st.processed, gameVersion, loader, lookup, versions)
    ensures r.seen <= IdentifiedSlugs(archives, lookup, search) + DependencyTargets(r.processed, gameVersion, loader, lookup, versions)
  {
    var latest := Latest(versions(st.queue[0]), gameVersion, loader);
    if latest.Some? {
      NewDependenciesSound(latest.value.dependencies, st.seen, lookup);
    }
    assert r.processed[..|r.processed| - 1] == st.processed;
  }

  /** One iteration of Step 2 keeps Traced. */
  lemma SteppedTraced(st: State, r: State, archives: seq<Archive>, gameVersion: string, loader: string, dryRun: bool,
                      lookup: string -> Option<Project>, search: string -> Option<Project>,
                      versions: string -> seq<Version>)
    requires Valid(st)
    requires Stepped(st, r, gameVersion, loader, dryRun, lookup, versions)
    requires r.summary.order == AppendNew(st.summary.order, NewlyQueued(st, gameVersion, loader, lookup, versions))
    requires IdentifiedSlugs(archives, lookup, search) <= st.seen
    requires Traced(st, archives, gameVersion, loader, lookup, search, versions)
    ensures Traced(r, archives, gameVersion, loader, lookup, search, versions)
  {
    SteppedOrder(st, r, SummaryOrder(archives, lookup, search), gameVersion, loader, dryRun, lookup, versions);
    SteppedDiscovery(st, r, QueueOrder(archives, lookup, search), gameVersion, loader, dryRun, lookup, versions);
    SteppedServed(st, r, QueueOrder(archives, lookup, search), gameVersion, loader, dryRun, lookup, versions);
    SteppedTitles(st, r, archives, gameVersion, loader, dryRun, lookup, search, versions);
    SteppedBound(st, r, archives, gameVersion, loader, dryRun, lookup, search, versions);
  }

  /** One iteration of Step 2 keeps Settled. */
  lemma SteppedSettled(st: State, r: State, archives: seq<Archive>, gameVersion: string, loader: string, dryRun: bool,
                       lookup: string -> Option<Project>, search: string -> Option<Project>,
                       versions: string -> seq<Version>)
    requires Valid(st)
    requires Stepped(st, r, gameVersion, loader, dryRun, lookup, versions)
    requires Settled(st, archives, gameVersion, loader, dryRun, lookup, search, versions)
    ensures Settled(r, archives, gameVersion, loader, dryRun, lookup, search, versions)
  {
    SteppedVerdicts(st, r, gameVersion, loader, dryRun, lookup, versions);
    SteppedClosure(st, r, gameVersion, loader, dryRun, lookup, versions);
    SteppedUnseen(st, r, UnidentifiedNames(archives, lookup, search), gameVersion, loader, dryRun, lookup, versions);
    SteppedDownloads(st, r, gameVersion, loader, dryRun, lookup, versions);
    SteppedEntries(st, r, gameVersion, loader, dryRun, lookup, versions);
    assert st.seen <= r.seen;
  }

  /**
   * One iteration of Step 2 either sees a new id the lookup oracle recognises
   * or sees nothing new and shortens the queue.
   */
  lemma SteppedProgress(st: State, r: State, gameVersion: string, loader: string, dryRun: bool,
                        lookup: string -> Option<Project>, versions: string -> seq<Version>, universe: set<string>)
    requires Stepped(st, r, gameVersion, loader, dryRun, lookup, versions)
    requires forall id :: id != "" && lookup(id).Some? ==> id in universe
    ensures st.seen <= r.seen
    ensures universe - r.seen < universe - st.seen || (r.seen == st.seen && |r.queue| < |st.queue|)
  {
    var latest := Latest(versions(st.queue[0]), gameVersion, loader);
    var added := if latest.Some? then NewDependencies(latest.value.dependencies, st.seen, lookup) else [];
    if added != [] {
      var x := added[0];
      assert x in universe - st.seen && x !in universe - r.seen;
    } else {
      assert r.seen == st.seen;
    }
  }

  /** What Step 1 leaves behind is Settled. */
  lemma Started(st: State, archives: seq<Archive>, gameVersion: string, loader: string, dryRun: bool,
                lookup: string -> Option<Project>, search: string -> Option<Project>,
                versions: string -> seq<Version>)
    requires Valid(st)
    requires Analyzed(st, archives, lookup, search)
    requires st.queue == QueueOrder(archives, lookup, search)
    requires st.summary.order == SummaryOrder(archives, lookup, search)
    requires st.summary.entries == Step1Entries(archives, lookup, search)
    ensures Settled(st, archives, gameVersion, loader, dryRun, lookup, search, versions)
  {
    Step1NotFound(archives, lookup, search);
  }

  /** Step 2 starts from the Step 1 queue and key order, with every seen slug titled as queued. */
  lemma StartedShape(st: State, archives: seq<Archive>, gameVersion: string, loader: string,
                     lookup: string -> Option<Project>, search: string -> Option<Project>,
                     versions: string -> seq<Version>)
    requires Valid(st)
    requires st.processed == [] && st.seen == IdentifiedSlugs(archives, lookup, search)
    requires st.queue == QueueOrder(archives, lookup, search)
    requires st.summary.order == SummaryOrder(archives, lookup, search)
    requires st.summary.entries == Step1Entries(archives, lookup, search)
    ensures Traced(st, archives, gameVersion, loader, lookup, search, versions)
  {
    assert st.processed + st.queue == st.queue;
    AppendNewPresent(st.summary.order, st.queue);
  }

  /**
   * main() from Step 1 to the end of Step 2, for the archives found in the
   * mods directory. The registry is reached only through the three oracles;
   * `universe` is a finite set holding every non-empty id the lookup oracle
   * recognises, which bounds the number of dependencies that can be queued.
   *
   * Afterwards the queue is empty and nothing is left Queued; every archive
   * has an entry; every slug ever queued was processed exactly once and its
   * entry reports the version Latest selects for it under the title it was
   * queued with; the required dependencies of every chosen version were
   * queued, and nothing else was; slugs were processed in breadth-first
   * discovery order and the summary keys follow the archives and then that
   * order; the remaining entries are the Not Found entries of unidentified
   * archives; the downloads are the primary files of the chosen versions, in
   * processing order.
   */
  method Resolve(archives: seq<Archive>, gameVersion: string, loader: string, dryRun: bool,
                 lookup: string -> Option<Project>, search: string -> Option<Project>,
                 versions: string -> seq<Version>, ghost universe: set<string>)
    returns (st: State)
    requires forall id :: id != "" && lookup(id).Some? ==> id in universe
    ensures Valid(st) && st.queue == []
    ensures forall k :: k in st.summary.entries ==> st.summary.entries[k].status != Queued
    ensures forall i :: 0 <= i < |archives| ==> ArchiveKey(archives[i], lookup, search) in st.summary.entries
    ensures IdentifiedSlugs(archives, lookup, search) <= st.seen
    ensures forall s :: s in st.seen <==> s in st.processed
    ensures forall s :: s in st.seen ==>
      && s in st.summary.entries
      && st.summary.entries[s].status == ProcessedStatus(Latest(versions(s), gameVersion, loader), dryRun)
      && st.summary.entries[s].version == ProcessedVersion(Latest(versions(s), gameVersion, loader))
      && st.summary.entries[s].title == QueuedTitle(s, archives, lookup, search)
    ensures forall s :: s in st.seen && Latest(versions(s), gameVersion, loader).Some? ==>
      RequiredTargets(Latest(versions(s), gameVersion, loader).value.dependencies, lookup) <= st.seen
    ensures st.seen <= IdentifiedSlugs(archives, lookup, search) + DependencyTargets(st.processed, gameVersion, loader, lookup, versions)
    ensures forall k :: k in st.summary.entries && k !in st.seen ==>
      st.summary.entries[k] == Entry(k, NotFound, Pending) && k in UnidentifiedNames(archives, lookup, search)
    ensures st.processed == Discovered(st.processed, QueueOrder(archives, lookup, search), gameVersion, loader, lookup, versions)
    ensures forall j :: 0 <= j < |st.processed| ==>
      j < |Discovered(st.processed[..j], QueueOrder(archives, lookup, search), gameVersion, loader, lookup, versions)|
    ensures st.summary.order == AppendNew(SummaryOrder(archives, lookup, search), st.processed)
    ensures st.downloads == FetchedAll(st.processed, gameVersion, loader, dryRun, versions)
  {
    st := AnalyzeArchives(archives, lookup, search);
    Started(st, archives, gameVersion, loader, dryRun, lookup, search, versions);
    StartedShape(st, archives, gameVersion, loader, lookup, search, versions);
    while st.queue != []
      invariant Valid(st)
      invariant Settled(st, archives, gameVersion, loader, dryRun, lookup, search, versions)
      invariant Traced(st, archives, gameVersion, loader, lookup, search, versions)
      decreases universe - st.seen, |st.queue|
    {
      ghost var before := st;
      st := ProcessNext(st, gameVersion, loader, dryRun, lookup, versions);
      assert Stepped(before, st, gameVersion, loader, dryRun, lookup, versions);
      SteppedSettled(before, st, archives, gameVersion, loader, dryRun, lookup, search, versions);
      SteppedProgress(before, st, gameVersion, loader, dryRun, lookup, versions, universe);
      SteppedTraced(before, st, archives, gameVersion, loader, dryRun, lookup, search, versions);
    }
    assert st.processed + st.queue == st.processed;
    forall i | 0 <= i < |archives|
      ensures ArchiveKey(archives[i], lookup, search) in st.summary.entries
    {
      ArchiveKeyMember(archives, i, lookup, search);
    }
  }
}
