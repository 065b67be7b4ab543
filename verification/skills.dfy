/**
 * Skill discovery in build-router.py: the `Skill` record, `should_ignore`,
 * `find_helper_dirs`, `find_skill_in_dir` and the two-level walk of
 * `scan_skills`, over a directory tree given as a value.
 */
module Skills {
  import opened Options
  import opened Text
  import opened Sorting
  import opened Frontmatter

  /** A discovered skill; `path` is the skill directory's path as text. */
  datatype Skill = Skill(
    name: string,
    path: string,
    description: Option<string>,
    helpers: seq<string>,
    warnings: seq<string>)

  function Name(s: Skill): string
  {
    s.name
  }

  /** A directory entry: a file with its text, or a directory with its entries. */
  datatype Entry = File(name: string, content: string) | Dir(name: string, entries: seq<Entry>)

  function EntryName(e: Entry): string
  {
    e.name
  }

  const IgnoredDirs: set<string> := {"_router", ".git", "__pycache__", "node_modules", ".venv", "venv", ".hatch"}

  const HelperDirNames: set<string> := {"scripts", "references", "assets"}

  /**
   * `should_ignore`: a listed name or a hidden one. The three listed names
   * that start with a dot are already hidden names.
   */
  function ShouldIgnore(name: string): (r: bool)
    ensures r <==> (|name| > 0 && name[0] == '.') || name in {"_router", "__pycache__", "node_modules", "venv"}
  {
    name in IgnoredDirs || (|name| > 0 && name[0] == '.')
  }

  /** The helper names in the order `sorted` puts them. */
  const HelperDirOrder: seq<string> := ["assets", "references", "scripts"]

  /** The helper directories present, in the order `sorted` puts them. */
  function HelperDirs(isDir: string -> bool): seq<string>
  {
    Filter(isDir, HelperDirOrder)
  }

  lemma HelperDirsShape(isDir: string -> bool)
    ensures SortedBy(HelperDirs(isDir), Identity) && DistinctKeys(HelperDirs(isDir), Identity)
    ensures forall h :: h in HelperDirs(isDir) <==> h in HelperDirNames && isDir(h)
  {
    var order := HelperDirOrder;
    assert LessEq(order[0], order[1]) && LessEq(order[0], order[2]) && LessEq(order[1], order[2]) by {
      assert order[0][0] < order[1][0] < order[2][0];
    }
    assert forall h :: h in order <==> h in HelperDirNames;
    FilterSorted(isDir, order, Identity);
    forall h
      ensures h in HelperDirs(isDir) <==> h in HelperDirNames && isDir(h)
    {
      FilterMember(isDir, order, h);
    }
  }

  /**
   * `find_helper_dirs`: visit the helper names in whatever order the set
   * yields them, keep those that are directories, then sort.
   */
  method FindHelperDirs(isDir: string -> bool) returns (found: seq<string>)
    ensures found == HelperDirs(isDir)
    ensures forall h :: h in found <==> h in HelperDirNames && isDir(h)
  {
    var acc: seq<string> := [];
    var rest := HelperDirNames;
    while rest != {}
      invariant rest <= HelperDirNames
      invariant forall h :: h in acc <==> h in HelperDirNames - rest && isDir(h)
      invariant DistinctKeys(acc, Identity)
      decreases |rest|
    {
      var h :| h in rest;
      if isDir(h) {
        acc := acc + [h];
      }
      rest := rest - {h};
    }
    found := SortBy(acc, Identity);
    SortByMembers(acc, Identity);
    SortByDistinct(acc, Identity);
    HelperDirsShape(isDir);
    SortedUnique(found, HelperDirs(isDir), Identity);
  }

  /** A value that Python treats as true: present and not the empty string. */
  predicate HasField(fm: map<string, string>, key: string)
  {
    key in fm && fm[key] != ""
  }

  function MissingNameWarning(name: string): string
  {
    "Missing 'name' in frontmatter, using folder name: " + name
  }

  const MissingDescriptionWarning: string := "Missing 'description' in frontmatter"

  /**
   * The record `find_skill_in_dir` builds from the parsed header of a
   * skill directory named `dirName`.
   */
  function NewSkill(fm: map<string, string>, dirName: string, path: string, helpers: seq<string>): (s: Skill)
    ensures s.path == path && s.helpers == helpers
    ensures HasField(fm, "name") ==> s.name == fm["name"]
    ensures !HasField(fm, "name") ==> s.name == dirName
    ensures MissingNameWarning(dirName) in s.warnings <==> !HasField(fm, "name")
    ensures s.description == (if "description" in fm then Some(fm["description"]) else None)
    ensures MissingDescriptionWarning in s.warnings <==> !HasField(fm, "description")
    ensures |s.warnings| == (if HasField(fm, "name") then 0 else 1) + (if HasField(fm, "description") then 0 else 1)
    ensures |s.warnings| <= 2
    ensures s.warnings == [] <==> HasField(fm, "name") && HasField(fm, "description")
    ensures dirName != "" ==> s.name != ""
  {
    var name := if HasField(fm, "name") then fm["name"] else dirName;
    var nameWarnings := if HasField(fm, "name") then [] else [MissingNameWarning(name)];
    var description := if "description" in fm then Some(fm["description"]) else None;
    var descriptionWarnings := if HasField(fm, "description") then [] else [MissingDescriptionWarning];
    assert MissingNameWarning(name)[9] == 'n' != MissingDescriptionWarning[9];
    Skill(name, path, description, helpers, nameWarnings + descriptionWarnings)
  }

  /** The text of the first regular file named `SKILL.md` among `entries`. */
  function SkillFile(entries: seq<Entry>): (r: Option<string>)
    ensures r.Some? ==> File("SKILL.md", r.value) in entries
    ensures r.None? ==> forall e :: e in entries ==> !(e.File? && e.name == "SKILL.md")
  {
    if entries == [] then None
    else if entries[0].File? && entries[0].name == "SKILL.md" then Some(entries[0].content)
    else SkillFile(entries[1..])
  }

  predicate HasDir(entries: seq<Entry>, name: string)
  {
    exists e :: e in entries && e.Dir? && e.name == name
  }

  /** `(dir / name).is_dir()` for the names directly inside a directory. */
  function IsDirIn(entries: seq<Entry>): string -> bool
  {
    name => HasDir(entries, name)
  }

  /** `dir / name`. */
  function JoinPath(dir: string, name: string): string
  {
    dir + "/" + name
  }

  /** What `find_skill_in_dir` returns for the entry `dir` found at `path`. */
  function SkillIn(dir: Entry, path: string): Option<Skill>
  {
    if dir.File? then None
    else
      match SkillFile(dir.entries)
      case None => None
      case Some(content) => Some(NewSkill(Frontmatter.Frontmatter(content), dir.name, path, HelperDirs(IsDirIn(dir.entries))))
  }

  /** `find_skill_in_dir`. */
  method FindSkillInDir(dir: Entry, path: string) returns (skill: Option<Skill>)
    ensures skill == SkillIn(dir, path)
    ensures skill.Some? <==> dir.Dir? && exists e :: e in dir.entries && e.File? && e.name == "SKILL.md"
  {
    if dir.File? {
      return None;
    }
    var file := SkillFile(dir.entries);
    if file.None? {
      return None;
    }
    var fm := ParseFrontmatter(file.value);
    var helpers := FindHelperDirs(IsDirIn(dir.entries));
    skill := Some(NewSkill(fm, dir.name, path, helpers));
  }

  /** What `scan_skills` takes from one entry inside a skill group. */
  function MemberSkills(groupPath: string, sub: Entry): seq<Skill>
  {
    if sub.Dir? && !ShouldIgnore(sub.name) then
      match SkillIn(sub, JoinPath(groupPath, sub.name))
      case Some(s) => [s]
      case None => []
    else []
  }

  function MemberSkillsIn(groupPath: string): Entry -> seq<Skill>
  {
    sub => MemberSkills(groupPath, sub)
  }

  /** The skills of a group, from its entries in the order given. */
  function GroupSkills(groupPath: string, subs: seq<Entry>): seq<Skill>
  {
    FlatMap(MemberSkillsIn(groupPath), subs)
  }

  /**
   * What `scan_skills` takes from one entry of the skills directory: the
   * skill it holds, or else the skills one level inside it.
   */
  function TopSkills(rootPath: string, item: Entry): seq<Skill>
  {
    if item.Dir? && !ShouldIgnore(item.name) then
      var path := JoinPath(rootPath, item.name);
      match SkillIn(item, path)
      case Some(s) => [s]
      case None => GroupSkills(path, SortBy(item.entries, EntryName))
    else []
  }

  function TopSkillsIn(rootPath: string): Entry -> seq<Skill>
  {
    item => TopSkills(rootPath, item)
  }

  /** What `scan_skills` returns for the skills directory `root` at `rootPath`. */
  function Scan(rootPath: string, root: Entry): seq<Skill>
  {
    if root.Dir? then FlatMap(TopSkillsIn(rootPath), SortBy(root.entries, EntryName)) else []
  }

  /** `scan_skills`. */
  method ScanSkills(rootPath: string, root: Entry) returns (skills: seq<Skill>)
    ensures skills == Scan(rootPath, root)
  {
    skills := [];
    if root.File? {
      return;
    }
    var items := SortBy(root.entries, EntryName);
    for i := 0 to |items|
      invariant skills == FlatMap(TopSkillsIn(rootPath), items[..i])
    {
      FlatMapStep(TopSkillsIn(rootPath), items, i);
      var item := items[i];
      if item.Dir? && !ShouldIgnore(item.name) {
        var path := JoinPath(rootPath, item.name);
        var skill := FindSkillInDir(item, path);
        if skill.Some? {
          skills := skills + [skill.value];
        } else {
          var grouped := ScanGroup(path, SortBy(item.entries, EntryName));
          skills := skills + grouped;
        }
      }
    }
    assert items[..|items|] == items;
  }

  /** The inner loop of `scan_skills`, over the sorted entries of a group. */
  method ScanGroup(groupPath: string, subs: seq<Entry>) returns (skills: seq<Skill>)
    ensures skills == GroupSkills(groupPath, subs)
  {
    skills := [];
    for j := 0 to |subs|
      invariant skills == GroupSkills(groupPath, subs[..j])
    {
      FlatMapStep(MemberSkillsIn(groupPath), subs, j);
      var sub := subs[j];
      if sub.Dir? && !ShouldIgnore(sub.name) {
        var found := FindSkillInDir(sub, JoinPath(groupPath, sub.name));
        if found.Some? {
          skills := skills + [found.value];
        }
      }
    }
    assert subs[..|subs|] == subs;
  }

  /** `s` is the skill of a directory directly inside the skills directory. */
  ghost predicate TopLevelSkill(rootPath: string, root: Entry, s: Skill)
  {
    root.Dir? &&
    exists item :: item in root.entries && item.Dir? && !ShouldIgnore(item.name) &&
      SkillIn(item, JoinPath(rootPath, item.name)) == Some(s)
  }

  /**
   * `s` is the skill of a directory inside a group: a directory of the
   * skills directory that is not itself a skill.
   */
  ghost predicate GroupedSkill(rootPath: string, root: Entry, s: Skill)
  {
    root.Dir? &&
    exists item, sub ::
      && item in root.entries && item.Dir? && !ShouldIgnore(item.name)
      && SkillIn(item, JoinPath(rootPath, item.name)).None?
      && sub in item.entries && sub.Dir? && !ShouldIgnore(sub.name)
      && SkillIn(sub, JoinPath(JoinPath(rootPath, item.name), sub.name)) == Some(s)
  }

  /** A skill that `find_skill_in_dir` builds carries at most two warnings. */
  lemma SkillInWarnings(dir: Entry, path: string)
    ensures SkillIn(dir, path).Some? ==> |SkillIn(dir, path).value.warnings| <= 2
  {
  }

  /** Every skill the scan returns carries at most two warnings. */
  lemma ScanWarnings(rootPath: string, root: Entry, s: Skill)
    requires s in Scan(rootPath, root)
    ensures |s.warnings| <= 2
  {
    ScanFinds(rootPath, root, s);
    if TopLevelSkill(rootPath, root, s) {
      var item :| item in root.entries && item.Dir? && !ShouldIgnore(item.name) &&
        SkillIn(item, JoinPath(rootPath, item.name)) == Some(s);
      SkillInWarnings(item, JoinPath(rootPath, item.name));
    } else {
      var item, sub :|
        && item in root.entries && item.Dir? && !ShouldIgnore(item.name)
        && SkillIn(item, JoinPath(rootPath, item.name)).None?
        && sub in item.entries && sub.Dir? && !ShouldIgnore(sub.name)
        && SkillIn(sub, JoinPath(JoinPath(rootPath, item.name), sub.name)) == Some(s);
      SkillInWarnings(sub, JoinPath(JoinPath(rootPath, item.name), sub.name));
    }
  }

  /**
   * The scan finds exactly the skills of the directories it may look at:
   * non-ignored directories of the skills directory, and non-ignored
   * directories one level inside those that are not skills themselves.
   * Nothing deeper, nothing ignored, and nothing inside a skill.
   */
  lemma ScanFinds(rootPath: string, root: Entry, s: Skill)
    ensures s in Scan(rootPath, root) <==> TopLevelSkill(rootPath, root, s) || GroupedSkill(rootPath, root, s)
  {
    if root.Dir? {
      var items := SortBy(root.entries, EntryName);
      FlatMapMembers(TopSkillsIn(rootPath), items, s);
      SortByMembers(root.entries, EntryName);
      forall item | item in root.entries
        ensures s in TopSkills(rootPath, item) <==>
                  (item.Dir? && !ShouldIgnore(item.name) &&
                   (SkillIn(item, JoinPath(rootPath, item.name)) == Some(s) ||
                    (SkillIn(item, JoinPath(rootPath, item.name)).None? &&
                     exists sub :: sub in item.entries && sub.Dir? && !ShouldIgnore(sub.name) &&
                       SkillIn(sub, JoinPath(JoinPath(rootPath, item.name), sub.name)) == Some(s))))
      {
        if item.Dir? && !ShouldIgnore(item.name) {
          var path := JoinPath(rootPath, item.name);
          var subs := SortBy(item.entries, EntryName);
          FlatMapMembers(MemberSkillsIn(path), subs, s);
          SortByMembers(item.entries, EntryName);
        }
      }
    }
  }

}
