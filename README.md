# Mod updater: identification and resolution engine

This project models the engine of `updater.py`, a command-line tool that
updates the Fabric/Forge/Quilt mods installed in a Minecraft `mods` folder
from the Modrinth registry, and proves properties of that model in Dafny.
The engine does three things:

1. It identifies every installed archive (`.jar`) on the registry. It uses the
   id in the archive's `fabric.mod.json` (`custom.modrinth`, else `id`). When
   there is none, it derives a candidate id from the file name. The manual
   override table is applied next. Then comes a direct project lookup and, only
   when that finds nothing, a name search.
2. It selects a version for each project. `filter_versions` keeps the versions
   that list both the requested game version and the requested loader. It
   prefers release versions and never reorders, so the first survivor is
   installed.
3. It resolves breadth-first. `main()` keeps a FIFO queue of slugs, a set of
   slugs seen so far and an insertion-ordered summary dict. Step 1 queues the
   identified archives and records the unidentified ones as Not Found. Step 2
   drains the queue. For each slug it records the verdict (Updated, Would
   Update or No Update, with the version). It fetches the primary file of the
   chosen version and appends the required dependencies not seen before.

The backup-directory naming loop that runs before Step 1 is modelled too.

Files, one module each:

- `wrappers.dfy`: `Option`.
- `sequences.dfy`: subsequences, duplicate-free sequences and the image of a
  sequence under a function.
- `filenames.dfy`: the filename heuristic. The two regular expressions and
  `str.strip` are written out as scanners over ASCII strings.
- `identify.dfy`: manifest priority, the override table, and
  `find_modrinth_project` over two registry oracles.
- `versions.dfy`: `filter_versions`, the version `main()` installs, and the
  primary-file pick of `download_version`.
- `backup.dfy`: the backup-name loop.
- `resolution.dfy`: Step 1 and Step 2. These are methods with loops over a
  `State` value: queue, seen set, processed slugs, summary and downloads.

The registry and the file system are reached only through parameters:

- `lookup(id)` is `GET /project/{id}`.
- `search(q)` is the top search hit for `q`.
- `versions(slug)` is the version list of a project.
- The set of names that already exist stands in for the backup folder check.

`main()` updates its queue, its set and its dict in place. They are its local
variables, not fields of an object, so each step is a method that takes the
current `State` and returns the next one. The loops in `AnalyzeArchives`,
`ExpandDependencies` and `Resolve` carry the invariants. `Valid` is the
invariant every step keeps:

- no slug is queued twice;
- the seen set is exactly the set of slugs ever queued;
- every seen slug has a summary entry;
- an entry still marked Queued is waiting in the queue.

Step 2 terminates because of an assumption on the lookup oracle. Every
non-empty id it recognises lies in a finite ghost set `universe`. Each
iteration either sees a new id from it or shortens the queue.

Two behaviours of the code are easy to mistake for something gentler, and the
model keeps the code's version of both. A required dependency whose registry
lookup fails is neither queued nor marked seen (`updater.py:217-218`); it does
not get an entry titled with its id. A failure to fetch a version list aborts
the whole run (`updater.py:92-93`) rather than marking that one entry as
failed; here the version oracle is total, and the abort is listed below.

## Model

| member | source | states |
|---|---|---|
| FileNames.Lower | updater.py:79 | `str.lower()` keeps the length and lower-cases each character; no upper-case letter remains |
| FileNames.RemoveSuffix | updater.py:79 | the result is a prefix of the input; either the suffix was cut off exactly, or the input is returned because it does not end with the suffix |
| FileNames.WordRun | updater.py:79 | `\w*` after `neo` matches greedily: every character of the run is a word character and the next one is not |
| FileNames.TokenLength | updater.py:79 | the group of alternatives `fabric`, `forge`, `quilt`, `neo\w*` matches at a position iff one of the four words starts there; the match is 6 characters for `fabric`, 5 for `forge` or `quilt`, and 3 plus the greedy word-character run after `neo`; it consists of word characters and lies inside the string |
| FileNames.LoaderMatch | updater.py:79 | the whole pattern matches at the start iff a loader word starts there, or a delimiter followed by a loader word does; the optional leading delimiter is taken whenever a loader word follows it, and the match is then that delimiter, the loader word and an optional trailing delimiter; the match never runs past the end |
| FileNames.RemoveLoaderTokens | updater.py:79 | `re.sub` of the loader tokens never makes the string longer |
| FileNames.TrailingDelimiter | updater.py:79 | the trailing `[-_.]?` takes one character exactly when a delimiter follows the token |
| FileNames.RemoveLoaderTokensSubsequence | updater.py:79 | `re.sub` of the loader tokens only deletes: the result is a subsequence of the input |
| FileNames.RemoveLoaderTokensNoMatch | updater.py:79 | when the pattern matches nowhere, `re.sub` returns the input unchanged |
| FileNames.RemoveLoaderTokensPlain | updater.py:79 | a string without `f`, `q` or `n` holds no loader token and is left unchanged |
| FileNames.DropMatch | updater.py:79 | a match at the front of the string is deleted and `re.sub` carries on right after it |
| FileNames.RemoveLeftmostMatch | updater.py:79 | the leftmost match is deleted: when no match starts before index `i` and one starts at `i`, the result is `s[..i]` followed by the substitution applied to the rest after that match |
| FileNames.RemoveLoaderTokensPrefix | updater.py:79 | a leading run of positions at which the pattern does not match is kept as it is, and the rest of the string is processed on its own |
| FileNames.BeforeVersion | updater.py:80 | `re.split(r'[-_.]?\d', s, 1)[0]` is the prefix before the leftmost match: no match starts inside it, one starts right after it when it is shorter than `s`, and it contains no digit |
| FileNames.Strip | updater.py:80 | `strip("-_.")` returns a string that neither starts nor ends with a delimiter |
| FileNames.StripSlice | updater.py:80 | the stripped string is a contiguous piece of the input, starting where the leading delimiters end |
| FileNames.StripCut | updater.py:80 | only delimiters were cut off, before the piece and after it |
| FileNames.CandidateFromFilename | updater.py:79-80 | the candidate id contains no digit and no upper-case letter, and neither starts nor ends with `-`, `_` or `.` |
| FileNames.LoaderTokenRemoved | updater.py:79 | `-fabric-`, `-forge-` or `-quilt-` in front of a rest without `f`, `q` or `n` is deleted together with both delimiters, and the rest is kept |
| FileNames.NeoTokenRemoved | updater.py:79 | in `-neo<word>.<rest>`, with `<word>` word characters and a rest without `f`, `q` or `n`, the greedy `neo\w*` match is deleted together with both delimiters, and the rest is kept |
| FileNames.CandidateOfParts | updater.py:79-80 | when removing the loader tokens leaves a name of lower-case letters followed by a version that starts with a digit, the candidate is that name |
| FileNames.LoaderJar | updater.py:79-80 | for `<name>-<loader>-<version>.jar` with loader `fabric`, `forge` or `quilt`, where the name is lower-case letters that contain none of the words `fabric`, `forge`, `quilt`, `neo` and the version starts with a digit and has no `f`, `q`, `n` or upper-case letter, the candidate is the name |
| FileNames.NeoJar | updater.py:79-80 | for `<name>-neo<word>.<version>.jar`, where `<word>` is lower-case word characters (as in `neoforge_1`), the name is as for LoaderJar and the version is as for LoaderJar, the candidate is the name: `neo\w*` swallows the word and whatever digits and underscores it holds |
| FileNames.NeoForgeFilename | updater.py:79-80 | `mod-neoforge_1.20.jar` gives the candidate `mod` |
| FileNames.ModMenuFilename | updater.py:79-80 | `modmenu-fabric-1.0.jar` gives the candidate `modmenu`: an `n` that starts no loader word is kept |
| FileNames.VoiceChatFilename | updater.py:79-80 | `voicechat-fabric-1.20.1-2.5.0.jar` gives the candidate `voicechat` |
| Identify.ManifestId | updater.py:74 | `custom.modrinth` wins when it is non-empty, else a non-empty `id`, else nothing |
| Identify.ApplyOverride | updater.py:82-83 | an id in the override table is replaced by its entry and any other id is kept; the result is never itself a key of the table, so a second application changes nothing |
| Identify.ModId | updater.py:74-83 | the lookup key is the overridden manifest id when there is one, otherwise the overridden filename candidate |
| Identify.GetProjectFromId | updater.py:41-50 | an empty id is never sent to the registry and yields nothing; any other id yields the lookup oracle's answer |
| Identify.SearchProjectByName | updater.py:52-63 | an empty query is never sent and yields nothing; any other query yields the search oracle's top hit |
| Identify.FindProject | updater.py:65-87 | nothing for an empty key; the direct lookup's project when it finds one; otherwise the name search for the same key |
| Identify.ManifestWins | updater.py:74-80 | with a non-empty manifest id the file name has no influence on the key, and `custom.modrinth` takes precedence over `id` |
| Identify.SearchOnlyOnMiss | updater.py:85-87 | if changing the search oracle changes the outcome, then the key was non-empty and the direct lookup found nothing |
| Identify.VoiceChatArchive | updater.py:79-83 | an archive named `voicechat-fabric-1.20.1-2.5.0.jar` without a manifest is looked up as `simple-voice-chat` |
| Versions.Candidates | updater.py:98 | the first comprehension keeps exactly the versions that list both the game version and the loader |
| Versions.Releases | updater.py:100 | the second comprehension keeps exactly the release versions |
| Versions.CandidatesCount | updater.py:98 | every occurrence of a compatible version is kept and nothing else: the multiplicity of each version in the result is its multiplicity in the input when it is compatible, and zero otherwise |
| Versions.ReleasesCount | updater.py:100 | every occurrence of a release is kept and nothing else, counted with multiplicity |
| Versions.CandidatesHead | updater.py:98 | the head of the candidates is the first compatible version of the registry list |
| Versions.ReleaseHead | updater.py:98-100 | the head of the releases among the candidates is the first compatible release of the registry list |
| Versions.CandidatesSubsequence | updater.py:98 | the compatible versions keep the registry's order |
| Versions.ReleasesSubsequence | updater.py:100 | the release versions keep the order of the candidates |
| Versions.FilterVersions | updater.py:96-101 | the result is an order-preserving subsequence of the input made of compatible versions; it is empty iff no version is compatible; if a compatible release exists it holds exactly the compatible releases, otherwise exactly the compatible versions; every kept version occurs as often as in the input |
| Versions.FilterVersionsIdempotent | updater.py:96-101 | applying `filter_versions` to its own result changes nothing |
| Versions.Latest | updater.py:200-207 | a version is installed iff some version is compatible; the installed version is compatible and comes from the list, and it is a release whenever a compatible release exists; it is the first version of the registry list that is compatible and, when a compatible release exists, a release |
| Versions.FirstPreferred | updater.py:96-101 | the head of `filter_versions` is the first version of the list that it would keep |
| Versions.ReleasePreferred | updater.py:100-101 | a compatible release is chosen over a newer compatible beta; a compatible beta on its own is chosen |
| Versions.FirstPrimary | updater.py:105 | the index of the first file flagged primary, or the length of the list when none is |
| Versions.PrimaryFile | updater.py:105 | the chosen file is flagged primary and every file before it is not; nothing is chosen iff no file is primary |
| Backup.DecimalString | updater.py:167-168 | `f"{i}"` is a non-empty string of decimal digits, without a leading zero unless the number is zero |
| Backup.DecimalRoundTrip | updater.py:167-168 | reading the digits back gives the number: the decimal rendering loses nothing |
| Backup.NumberedNameInjective | updater.py:167-168 | different counters give different names `old mods-i`, so each loop iteration tests a new name |
| Backup.DecimalStringLength | updater.py:167 | a number of at least 10^k has more than k digits, so the loop's candidate names grow longer than any existing name |
| Backup.ChooseBackupName | updater.py:163-168 | the chosen name does not exist yet; it is `old mods` when that is free, otherwise `old mods-i` with every `old mods-j`, 1 <= j < i, taken |
| Backup.BackupDirectory | updater.py:161-168 | a dry run reads the mods directory itself; a live run reads a fresh backup directory named as above |
| Resolution.Summary.Put | updater.py:188 | `summary[key] = e`: the map gets the new entry and a new key goes to the end of the key order, while an existing key keeps its position; the dict stays well-formed |
| Resolution.Initial | updater.py:175 | the empty queue, set and dict satisfy the worklist invariant |
| Resolution.Enqueue | updater.py:186-188 | the slug is appended to the queue and added to the seen set, and it gets a Queued entry with version `---` at the end of the key order unless already a key; nothing is processed or fetched; the invariant is kept |
| Resolution.Identified | updater.py:180-182 | an archive counts as identified only when the found project has a non-empty slug |
| Resolution.ArchiveKeyMember | updater.py:182-190 | every archive's summary key (its slug, or its file name when unidentified) is among the keys of the archive list |
| Resolution.ArchivesStep | updater.py:178-191 | the keys, identified slugs and unidentified names of a prefix grow by exactly the next archive's contribution |
| Resolution.Step1NotFound | updater.py:189-190 | every Not Found entry Step 1 writes is titled with its own key, the file name, and has version `---` |
| Resolution.AnalyzeArchive | updater.py:179-191 | a new slug is appended to the queue and the seen set with a Queued entry carrying title and `---`, and its key goes to the end of the key order; an already seen slug changes nothing; an unidentified archive gets a Not Found entry under its file name, which keeps its position if the name is already a key; the invariant is kept |
| Resolution.AnalyzedStep | updater.py:178-191 | one more analysed archive keeps the Step 1 summary (Analyzed) true for the longer prefix |
| Resolution.Step1ShapeStep | updater.py:178-191 | one more analysed archive extends the queue, the key order and the entries exactly as the reference definitions do for the longer prefix |
| Resolution.AnalyzeArchives | updater.py:175-191 | after Step 1 nothing is processed or fetched; every archive has an entry under its key; the seen set is exactly the set of identified slugs; the queue holds them in the order of the archives, each once; the key order and the entries are those of the archives analysed one by one; Not Found entries are unidentified file names; every entry is Queued or Not Found |
| Resolution.NewDependencies | updater.py:213-223 | the ids the dependency loop appends: no id twice, none seen before, none empty, each known to the registry |
| Resolution.NewDependenciesSound | updater.py:214-218 | every appended id is the id of a required dependency that the registry knows |
| Resolution.NewDependenciesComplete | updater.py:213-223 | every required dependency the registry knows is seen afterwards: it was seen before or it is appended |
| Resolution.FollowDependency | updater.py:214-223 | a required dependency with a non-empty, unseen id that the registry knows is appended with a Queued entry titled from the registry, its key at the end of the key order unless already a key; any other dependency changes nothing; the invariant is kept |
| Resolution.WithQueuedEntries | updater.py:221-223 | after queueing a list of ids, each of them has a Queued entry titled from the registry, the keys are the old keys plus the ids, and all other entries are unchanged |
| Resolution.ExpandStep | updater.py:213-223 | one iteration of the dependency loop extends the queue and the summary by exactly the next id of NewDependencies, if any |
| Resolution.ExpandDependencies | updater.py:213-223 | the queue grows by exactly NewDependencies; the seen set and the keys grow by those ids, which join the key order in that order; each of them gets a Queued entry titled from the registry; every other entry is unchanged; the invariant is kept |
| Resolution.Fetched | updater.py:103-113 | at most one file is fetched; a file is fetched iff the run is live, a version was chosen and it has a primary file; the fetched file is the first primary file of that version |
| Resolution.Dequeue | updater.py:195-211 | the head leaves the queue and joins the processed slugs, its entry is overwritten and keeps its position in the key order, the fetched files are appended to the downloads and the seen set is unchanged; the invariant is kept |
| Resolution.ProcessNext | updater.py:195-223 | the head of the queue is removed and recorded as processed; its entry keeps its title and gets No Update with `N/A`, or Updated (Would Update on a dry run) with the chosen version's number, whether or not a primary file exists; the chosen version's new required dependencies are appended in order as Queued entries, and new keys join the end of the key order; no dependency is followed when no version is compatible |
| Resolution.FetchedAll | updater.py:194-211 | the files fetched while processing a list of slugs: none on a dry run, each one primary, at most one per slug |
| Resolution.FetchedAllSound | updater.py:194-211 | every downloaded file is the file fetched for some processed slug |
| Resolution.FetchedAllComplete | updater.py:194-211 | the file fetched for every processed slug is among the downloads; on a live run this is the first primary file of each chosen version that has one |
| Resolution.SteppedEntries | updater.py:195-223 | after one Step 2 iteration, the processed slug has its verdict, the appended ids have Queued entries and every other entry is unchanged |
| Resolution.SteppedVerdicts | updater.py:204-211 | every processed slug keeps reporting the verdict of the version Latest selects for it |
| Resolution.SteppedClosure | updater.py:213-223 | for every processed slug with a chosen version, the registry-known required dependencies of that version are seen |
| Resolution.SteppedUnseen | updater.py:189-190 | entries whose key was never seen stay Not Found entries of unidentified archives |
| Resolution.SteppedDownloads | updater.py:210 | the downloads are the primary files of the processed slugs' chosen versions, in processing order |
| Resolution.SteppedOrder | updater.py:186-223 | the summary keys stay the Step 1 keys followed by the slugs processed and queued since, each at its first assignment |
| Resolution.SteppedDiscovery | updater.py:194-223 | processed slugs followed by the queue stay the breadth-first discovery order: the initial queue, then the new dependencies of each processed slug in turn; the queue is served first in, first out |
| Resolution.SteppedServed | updater.py:194-197 | the slug taken off the queue had been discovered by the slugs processed before it: the j-th processed slug lies within what the first j processed slugs discovered |
| Resolution.DiscoveredPrefix | updater.py:194-223 | what the first j processed slugs discover is a prefix of what all of them discover |
| Resolution.BreadthFirstNext | updater.py:194-197 | in a run that is a fixpoint of the discovery order and served in order, the j-th processed slug is the j-th slug discovered by the first j |
| Resolution.PrefixDeterminedAgree | updater.py:194-197 | two sequences whose every element is fixed by the prefix before it agree on their common prefix |
| Resolution.BreadthFirstNotPrefix | updater.py:194-197 | a run that is a fixpoint of the discovery order is not a proper prefix of a run served in order: Step 2 cannot stop while slugs its processed slugs discovered are still waiting |
| Resolution.BreadthFirstUnique | updater.py:194-223 | the processing order is determined by the inputs: two sequences that are both fixpoints of the discovery order and served in order are equal |
| Resolution.SteppedTitles | updater.py:183-223 | every seen slug keeps the title it was queued with: for an identified slug, the title of its Step 1 entry (which a later unidentified archive whose file name equals the slug overwrites, `updater.py:190`); for a dependency, the registry title |
| Resolution.SteppedBound | updater.py:213-223 | every seen slug is an identified slug or a registry-known required dependency of the chosen version of a processed slug |
| Resolution.SteppedTraced | updater.py:194-223 | one Step 2 iteration keeps the summary key order, the discovery order, the served-in-order property, the titles and the bound on the seen slugs |
| Resolution.SteppedSettled | updater.py:194-223 | one Step 2 iteration keeps all of the above |
| Resolution.SteppedProgress | updater.py:194-223 | one Step 2 iteration either sees a new id known to the registry or sees nothing new and shortens the queue |
| Resolution.Started | updater.py:175-191 | the state Step 1 leaves behind meets the Step 2 invariant, with every unseen key a Not Found entry titled by its file name |
| Resolution.StartedShape | updater.py:175-191 | Step 2 starts with the discovery order equal to the Step 1 queue and with every seen slug titled as queued |
| Resolution.Resolve | updater.py:175-223 | afterwards the queue is empty and nothing is still Queued; every archive has an entry; every identified slug was seen; every seen slug was processed exactly once, with the verdict Latest gives and the title it was queued with; the required dependencies of every chosen version were seen, and every seen slug is identified or such a dependency; the slugs were processed in breadth-first discovery order, each one discovered by the slugs processed before it, which fixes that order uniquely (BreadthFirstUnique), and the summary keys are the Step 1 keys followed by the processed slugs; the other entries are `Not Found` entries titled by their file names; the downloads are the chosen versions' primary files in processing order |

## Left out

- HTTP is not modelled. The registry calls (`updater.py:41-63`, `89-94`) are oracle parameters, and the download stream (`updater.py:115-122`) is recorded as the list of files fetched.
- The abort on a failed download is not modelled. `r.raise_for_status()` in `download_version` (`updater.py:118`) raises out of `main()`, which ends the whole run (`updater.py:244-245`); the model assumes every download succeeds.
- The abort on a failed version-list request is not modelled. `raise_for_status` in `get_mod_versions` (`updater.py:92-93`) ends the whole run; the `versions` oracle is total, so the model only covers runs in which every version list is fetched.
- Reading `fabric.mod.json` from the zip archive is not modelled (`updater.py:68-76`). The parsed manifest is an input: an archive that is not a valid zip, has no `fabric.mod.json`, or whose manifest is not valid JSON has none (the exceptions caught at `updater.py:75`).
- The abort on a manifest that is not valid UTF-8 is not modelled. `json.load` then raises `UnicodeDecodeError` (`updater.py:73`), a `ValueError` but not a `json.JSONDecodeError`, so the `except` clause at `updater.py:75` does not catch it and the run ends at `updater.py:244-245`.
- The abort on a manifest that is not a JSON object, or whose `custom` field is not an object, is not modelled. `data.get('custom', {}).get(...)` then raises `AttributeError` (`updater.py:74`), which the `except` clause at `updater.py:75` does not list, so the run ends at `updater.py:244-245`. Manifests here are records with optional string fields.
- File system effects are not modelled: listing the mods folder, detecting the `.minecraft` directory, `copytree` and the removal of the old archives (`updater.py:21-27`, `146-147`, `171-173`). The archive list and the set of existing names are inputs.
- Console I/O is not modelled: argument parsing, prompts, progress messages, the summary table and its column truncation (`updater.py:127-159`, `225-239`). Neither is `log_crash` (`updater.py:31-39`).
- FileNames.LoaderJar: covers only names made of lower-case letters and versions without `f`, `q`, `n` and upper-case letters; the `neo` loaders are covered by NeoJar under the same restrictions. For other file names the model states only the general properties of CandidateFromFilename, RemoveLoaderTokens, BeforeVersion and Strip, plus the concrete cases ModMenuFilename, VoiceChatFilename and NeoForgeFilename.
- FileNames.NeoJar: same restrictions as LoaderJar on the name and the version.
- FileNames.Lower: lower-cases ASCII letters only, and `\w` and `\d` are ASCII only, unlike Python's Unicode-aware `str.lower` and `re`.
- A title the registry omits (`project.get("title")` returning `None`) is not modelled; titles are strings.
- Resolution.Resolve: termination assumes every non-empty id the lookup oracle recognises lies in the finite ghost set `universe`; the code itself makes no such promise about the registry.
