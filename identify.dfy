/**
 * Identification of an installed archive on the registry (find_modrinth_project
 * and the two registry lookups it relies on). The registry is reached only
 * through two oracles supplied by the caller:
 *   lookup(id)  - the project whose slug or id is `id` (GET /project/{id}),
 *   search(q)   - the top hit of a free-text search for `q`.
 * Both answer None on any transport error or when nothing is found.
 */
module Identify {
  import opened Wrappers
  import FileNames

  /**
   * The parsed fabric.mod.json of an archive: the value of custom.modrinth
   * and the value of id, each None when the key is absent.
   */
  datatype Manifest = Manifest(modrinth: Option<string>, id: Option<string>)

  /** An installed archive: its file name and its manifest (None when it has none or it cannot be read). */
  datatype Archive = Archive(filename: string, manifest: Option<Manifest>)

  /** The registry's answer for a project: its slug and display title. */
  datatype Project = Project(slug: string, title: string)

  /** The manual override table MOD_ID_OVERRIDES. */
  const Overrides: map<string, string> := map[
    "voicechat" := "simple-voice-chat",
    "voicechat-fabric" := "simple-voice-chat"
  ]

  /** Python truthiness of an optional string: present and non-empty. */
  predicate Truthy(o: Option<string>)
  {
    o.Some? && o.value != ""
  }

  /**
   * `custom.modrinth or id` read from the manifest; "" stands for every falsy
   * outcome (no manifest, both keys absent or empty).
   */
  function ManifestId(m: Option<Manifest>): (r: string)
    ensures m.Some? && Truthy(m.value.modrinth) ==> r == m.value.modrinth.value
    ensures m.Some? && !Truthy(m.value.modrinth) && Truthy(m.value.id) ==> r == m.value.id.value
    ensures m.None? || (!Truthy(m.value.modrinth) && !Truthy(m.value.id)) ==> r == ""
  {
    match m
    case None => ""
    case Some(mf) =>
      if Truthy(mf.modrinth) then mf.modrinth.value
      else if Truthy(mf.id) then mf.id.value
      else ""
  }

  /** The exact-match rewrite through the override table. */
  function ApplyOverride(id: string): (r: string)
    ensures id in Overrides ==> r == Overrides[id]
    ensures id !in Overrides ==> r == id
    ensures r !in Overrides
  {
    if id in Overrides then Overrides[id] else id
  }

  /**
   * The id the archive is looked up under: the manifest's id when it gives a
   * non-empty one, the filename heuristic otherwise, then the override table.
   */
  function ModId(a: Archive): (r: string)
    ensures ManifestId(a.manifest) != "" ==> r == ApplyOverride(ManifestId(a.manifest))
    ensures ManifestId(a.manifest) == "" ==> r == ApplyOverride(FileNames.CandidateFromFilename(a.filename))
  {
    var candidate := ManifestId(a.manifest);
    ApplyOverride(if candidate != "" then candidate else FileNames.CandidateFromFilename(a.filename))
  }

  /** get_project_from_id: an empty id is never sent to the registry. */
  function GetProjectFromId(lookup: string -> Option<Project>, id: string): (p: Option<Project>)
    ensures id == "" ==> p.None?
    ensures id != "" ==> p == lookup(id)
  {
    if id == "" then None else lookup(id)
  }

  /** search_project_by_name: an empty query is never sent to the registry. */
  function SearchProjectByName(search: string -> Option<Project>, query: string): (p: Option<Project>)
    ensures query == "" ==> p.None?
    ensures query != "" ==> p == search(query)
  {
    if query == "" then None else search(query)
  }

  /**
   * find_modrinth_project: the direct lookup of ModId(a) and, only when it
   * finds nothing, the name search for the same string.
   */
  function FindProject(a: Archive, lookup: string -> Option<Project>, search: string -> Option<Project>): (p: Option<Project>)
    ensures var id := ModId(a);
      && (id == "" ==> p.None?)
      && (id != "" && lookup(id).Some? ==> p == lookup(id))
      && (id != "" && lookup(id).None? ==> p == search(id))
  {
    var id := ModId(a);
    var project := GetProjectFromId(lookup, id);
    if project.Some? then project else SearchProjectByName(search, id)
  }

  /** A non-empty manifest id decides the lookup key whatever the file is called. */
  lemma ManifestWins(m: Manifest, f1: string, f2: string)
    requires Truthy(m.modrinth) || Truthy(m.id)
    ensures ModId(Archive(f1, Some(m))) == ModId(Archive(f2, Some(m)))
    ensures ModId(Archive(f1, Some(m))) == ApplyOverride(if Truthy(m.modrinth) then m.modrinth.value else m.id.value)
  {
  }

  /** The search oracle is consulted only when the direct lookup finds nothing. */
  lemma SearchOnlyOnMiss(a: Archive, lookup: string -> Option<Project>, s1: string -> Option<Project>, s2: string -> Option<Project>)
    requires FindProject(a, lookup, s1) != FindProject(a, lookup, s2)
    ensures ModId(a) != "" && lookup(ModId(a)).None?
  {
  }

  /** The override table's example: with no manifest, this archive is looked up as "simple-voice-chat". */
  lemma VoiceChatArchive()
    ensures ModId(Archive("voicechat-fabric-1.20.1-2.5.0.jar", None)) == "simple-voice-chat"
  {
    FileNames.VoiceChatFilename();
  }
}
