/**
 * What build-router.py does with the scanned skills: `check_conflicts`
 * (the first skill of each name wins), `validate_skills` (the warning
 * count), `generate_router_content` (the routing table) and the
 * description shown by `--list`.
 */
module Router {
  import opened Options
  import opened Text
  import opened Sorting
  import opened Skills

  function Names(s: seq<Skill>): set<string>
  {
    set i | 0 <= i < |s| :: s[i].name
  }

  /** No earlier skill of `s` has the name of the one at `i`. */
  ghost predicate FirstAt(s: seq<Skill>, i: int)
    requires 0 <= i < |s|
  {
    forall j :: 0 <= j < i ==> s[j].name != s[i].name
  }

  /** The skills of `s` whose name has not come before, in their order. */
  function FirstOccurrences(s: seq<Skill>): seq<Skill>
  {
    if s == [] then []
    else
      var init := s[..|s| - 1];
      if s[|s| - 1].name in Names(init) then FirstOccurrences(init)
      else FirstOccurrences(init) + [s[|s| - 1]]
  }

  lemma NamesStep(s: seq<Skill>, i: nat)
    requires i < |s|
    ensures Names(s[..i + 1]) == Names(s[..i]) + {s[i].name}
    ensures s[i].name in Names(s[..i]) <==> !FirstAt(s, i)
  {
    var a, b := s[..i + 1], s[..i];
    assert forall j :: 0 <= j < i ==> a[j] == b[j] == s[j];
    assert a[i] == s[i];
    assert forall n :: n in Names(b) <==> exists j :: 0 <= j < i && s[j].name == n;
  }

  lemma FirstOccurrencesStep(s: seq<Skill>, i: nat)
    requires i < |s|
    ensures FirstOccurrences(s[..i + 1]) ==
              if s[i].name in Names(s[..i]) then FirstOccurrences(s[..i])
              else FirstOccurrences(s[..i]) + [s[i]]
  {
    assert s[..i + 1][..i] == s[..i];
  }

  /**
   * `check_conflicts`: walk the skills in order, remembering the path of
   * the first skill of each name, and drop any later skill of a name
   * already seen.
   */
  method CheckConflicts(skills: seq<Skill>) returns (unique: seq<Skill>)
    ensures unique == FirstOccurrences(skills)
  {
    var seen: map<string, string> := map[];
    unique := [];
    for i := 0 to |skills|
      invariant unique == FirstOccurrences(skills[..i])
      invariant seen.Keys == Names(skills[..i])
    {
      FirstOccurrencesStep(skills, i);
      NamesStep(skills, i);
      var skill := skills[i];
      if skill.name !in seen {
        seen := seen[skill.name := skill.path];
        unique := unique + [skill];
      }
    }
    assert skills[..|skills|] == skills;
  }

  /** Deduplication keeps every name and leaves each one once. */
  lemma {:induction false} FirstOccurrencesNames(s: seq<Skill>)
    ensures Names(FirstOccurrences(s)) == Names(s)
    ensures DistinctKeys(FirstOccurrences(s), Name)
    decreases |s|
  {
    if s != [] {
      var n := |s| - 1;
      var init := s[..n];
      FirstOccurrencesNames(init);
      NamesStep(s, n);
      assert s[..n + 1] == s;
      var r := FirstOccurrences(init);
      if s[n].name !in Names(init) {
        NamesAppend(r, s[n]);
        forall i | 0 <= i < |r|
          ensures r[i].name != s[n].name
        {
          assert r[i].name in Names(r);
        }
      }
    }
  }

  lemma NamesAppend(r: seq<Skill>, x: Skill)
    ensures Names(r + [x]) == Names(r) + {x.name}
  {
    var a := r + [x];
    assert forall j :: 0 <= j < |r| ==> a[j] == r[j];
    assert a[|r|] == x;
    assert forall n :: n in Names(r) ==> exists j :: 0 <= j < |r| && r[j].name == n;
  }

  /**
   * The positions `idx` in `s` from which `r` is taken, in increasing
   * order: `r` is a subsequence of `s`.
   */
  ghost predicate Picks(r: seq<Skill>, s: seq<Skill>, idx: seq<nat>)
  {
    && |idx| == |r|
    && (forall k :: 0 <= k < |idx| ==> idx[k] < |s| && r[k] == s[idx[k]])
    && (forall k, l :: 0 <= k < l < |idx| ==> idx[k] < idx[l])
  }

  /**
   * Deduplication keeps, in their original order, exactly the skills at
   * the positions where a name occurs for the first time.
   */
  lemma {:induction false} FirstOccurrencesPositions(s: seq<Skill>) returns (idx: seq<nat>)
    ensures Picks(FirstOccurrences(s), s, idx)
    ensures forall k :: 0 <= k < |idx| ==> FirstAt(s, idx[k])
    ensures forall i :: 0 <= i < |s| && FirstAt(s, i) ==> i in idx
    decreases |s|
  {
    if s == [] {
      idx := [];
    } else {
      var n := |s| - 1;
      var init := s[..n];
      var prev := FirstOccurrencesPositions(init);
      NamesStep(s, n);
      FirstOccurrencesStep(s, n);
      assert s[..n + 1] == s;
      FirstAtPrefix(s, n);
      PicksExtend(FirstOccurrences(init), s, prev, n);
      idx := if FirstAt(s, n) then prev + [n] else prev;
      forall k | 0 <= k < |idx|
        ensures FirstAt(s, idx[k])
      {
        if k < |prev| {
          assert idx[k] == prev[k];
        }
      }
      forall i | 0 <= i < |s| && FirstAt(s, i)
        ensures i in idx
      {
        if i < n {
          assert FirstAt(init, i);
          assert i in prev;
        } else {
          assert idx[|idx| - 1] == n;
        }
      }
    }
  }

  /** Whether a name occurs first at `i` does not depend on what comes after `i`. */
  lemma FirstAtPrefix(s: seq<Skill>, n: nat)
    requires n <= |s|
    ensures forall i :: 0 <= i < n ==> (FirstAt(s[..n], i) <==> FirstAt(s, i))
  {
    forall i | 0 <= i < n
      ensures FirstAt(s[..n], i) <==> FirstAt(s, i)
    {
      assert forall j :: 0 <= j <= i ==> s[..n][j] == s[j];
    }
  }

  /** Positions picked from a prefix are positions in the whole, and one more can follow. */
  lemma PicksExtend(r: seq<Skill>, s: seq<Skill>, idx: seq<nat>, n: nat)
    requires n < |s| && Picks(r, s[..n], idx)
    ensures forall k :: 0 <= k < |idx| ==> idx[k] < n
    ensures Picks(r, s, idx)
    ensures Picks(r + [s[n]], s, idx + [n])
  {
    assert forall k :: 0 <= k < |idx| ==> s[..n][idx[k]] == s[idx[k]];
  }

  /** The number `validate_skills` reports: all warnings of all skills. */
  function TotalWarnings(skills: seq<Skill>): nat
  {
    if skills == [] then 0
    else TotalWarnings(skills[..|skills| - 1]) + |skills[|skills| - 1].warnings|
  }

  /** `validate_skills`: count the warnings one by one. */
  method ValidateSkills(skills: seq<Skill>) returns (count: nat)
    ensures count == TotalWarnings(skills)
  {
    count := 0;
    for i := 0 to |skills|
      invariant count == TotalWarnings(skills[..i])
    {
      assert skills[..i + 1][..i] == skills[..i];
      var warnings := skills[i].warnings;
      for j := 0 to |warnings|
        invariant count == TotalWarnings(skills[..i]) + j
      {
        count := count + 1;
      }
    }
    assert skills[..|skills|] == skills;
  }

  /** The count is zero exactly when no skill carries a warning. */
  lemma {:induction false} TotalWarningsZero(skills: seq<Skill>)
    ensures TotalWarnings(skills) == 0 <==> forall i :: 0 <= i < |skills| ==> skills[i].warnings == []
    decreases |skills|
  {
    if skills != [] {
      var n := |skills| - 1;
      TotalWarningsZero(skills[..n]);
      assert forall i :: 0 <= i < n ==> skills[..n][i] == skills[i];
    }
  }

  /** The count adds up over consecutive runs of skills. */
  lemma {:induction false} TotalWarningsAppend(a: seq<Skill>, b: seq<Skill>)
    ensures TotalWarnings(a + b) == TotalWarnings(a) + TotalWarnings(b)
    decreases |b|
  {
    if b == [] {
      assert a + b == a;
    } else {
      var n := |b| - 1;
      TotalWarningsAppend(a, b[..n]);
      assert (a + b)[..|a + b| - 1] == a + b[..n];
    }
  }

  /** Skills built from headers carry at most two warnings each. */
  lemma {:induction false} TotalWarningsBound(skills: seq<Skill>)
    requires forall i :: 0 <= i < |skills| ==> |skills[i].warnings| <= 2
    ensures TotalWarnings(skills) <= 2 * |skills|
    decreases |skills|
  {
    if skills != [] {
      var n := |skills| - 1;
      assert forall i :: 0 <= i < n ==> skills[..n][i] == skills[i];
      TotalWarningsBound(skills[..n]);
    }
  }

  /** Deduplication only drops skills. */
  lemma {:induction false} FirstOccurrencesMember(s: seq<Skill>, x: Skill)
    requires x in FirstOccurrences(s)
    ensures x in s
    decreases |s|
  {
    if s != [] {
      var init := s[..|s| - 1];
      if x in FirstOccurrences(init) {
        FirstOccurrencesMember(init, x);
        assert forall y :: y in init ==> y in s;
      }
    }
  }

  /**
   * The count `main` reports after scanning and deduplicating is at most
   * two warnings per skill.
   */
  lemma PipelineWarningsBound(rootPath: string, root: Entry)
    ensures TotalWarnings(FirstOccurrences(Scan(rootPath, root))) <= 2 * |FirstOccurrences(Scan(rootPath, root))|
  {
    var scanned := Scan(rootPath, root);
    var unique := FirstOccurrences(scanned);
    forall i | 0 <= i < |unique|
      ensures |unique[i].warnings| <= 2
    {
      FirstOccurrencesMember(scanned, unique[i]);
      ScanWarnings(rootPath, root, unique[i]);
    }
    TotalWarningsBound(unique);
  }

  const Title: string := "# Skill Router"

  /** The routing line of one skill: its name, then its path with a trailing `/`. */
  function RouteLine(s: Skill): string
  {
    s.name + ": " + s.path + "/"
  }

  /** The lines of the routing file: title, blank, one line per skill by name, blank. */
  function RouterLines(skills: seq<Skill>): (lines: seq<string>)
    ensures |lines| == |skills| + 3
    ensures lines[0] == Title && lines[1] == "" && lines[|lines| - 1] == ""
    ensures forall i :: 0 <= i < |skills| ==> lines[i + 2] == RouteLine(SortBy(skills, Name)[i])
  {
    [Title, ""] + MapSeq(RouteLine, SortBy(skills, Name)) + [""]
  }

  function RouterText(skills: seq<Skill>): string
  {
    Join(RouterLines(skills), "\n")
  }

  /** `generate_router_content`. */
  method GenerateRouterContent(skills: seq<Skill>) returns (content: string)
    ensures content == RouterText(skills)
  {
    var lines := [Title, ""];
    var sorted := SortBy(skills, Name);
    for i := 0 to |sorted|
      invariant lines == [Title, ""] + MapSeq(RouteLine, sorted[..i])
    {
      MapSeqSnoc(RouteLine, sorted, i);
      lines := lines + [RouteLine(sorted[i])];
    }
    assert sorted[..|sorted|] == sorted;
    lines := lines + [""];
    content := Join(lines, "\n");
  }

  /**
   * When no name or path contains a newline, the routing text splits back
   * into its lines: the title, a blank, one line per skill and a final
   * blank, so the file ends with a newline.
   */
  lemma RouterTextLines(skills: seq<Skill>)
    requires forall s :: s in skills ==> '\n' !in s.name && '\n' !in s.path
    ensures SplitOn(RouterText(skills), '\n') == RouterLines(skills)
    ensures |SplitOn(RouterText(skills), '\n')| == |skills| + 3
  {
    RouterLinesNoNewline(skills);
    SplitJoin(RouterLines(skills), '\n');
  }

  lemma RouterLinesNoNewline(skills: seq<Skill>)
    requires forall s :: s in skills ==> '\n' !in s.name && '\n' !in s.path
    ensures forall k :: 0 <= k < |RouterLines(skills)| ==> '\n' !in RouterLines(skills)[k]
  {
    var sorted := SortBy(skills, Name);
    SortByMembers(skills, Name);
    RouteLinesNoNewline(sorted);
    assert '\n' !in Title;
    assert RouterLines(skills) == [Title, ""] + MapSeq(RouteLine, sorted) + [""];
  }

  lemma RouteLinesNoNewline(t: seq<Skill>)
    requires forall s :: s in t ==> '\n' !in s.name && '\n' !in s.path
    ensures forall k :: 0 <= k < |t| ==> '\n' !in MapSeq(RouteLine, t)[k]
  {
    forall k | 0 <= k < |t|
      ensures '\n' !in MapSeq(RouteLine, t)[k]
    {
      assert t[k] in t;
      RouteLineNoNewline(t[k]);
    }
  }

  lemma RouteLineNoNewline(s: Skill)
    requires '\n' !in s.name && '\n' !in s.path
    ensures '\n' !in RouteLine(s)
  {
    assert forall c :: c in RouteLine(s) ==> c in s.name || c in ": " || c in s.path || c in "/";
  }

  /** The routing text ends with a newline and opens with the title and a blank line. */
  lemma {:induction false} RouterTextFrame(skills: seq<Skill>)
    ensures |RouterText(skills)| >= |Title| + 2
    ensures RouterText(skills)[..|Title| + 2] == Title + "\n\n"
    ensures RouterText(skills)[|RouterText(skills)| - 1] == '\n'
  {
    var lines := RouterLines(skills);
    JoinEndsBlank(lines);
    assert RouterText(skills) == Title + "\n" + Join(lines[1..], "\n");
    JoinStartsBlank(lines[1..]);
  }

  lemma {:induction false} JoinEndsBlank(lines: seq<string>)
    requires |lines| >= 2 && lines[|lines| - 1] == ""
    ensures |Join(lines, "\n")| >= 1 && Join(lines, "\n")[|Join(lines, "\n")| - 1] == '\n'
    decreases |lines|
  {
    if |lines| > 2 {
      JoinEndsBlank(lines[1..]);
    }
  }

  lemma JoinStartsBlank(lines: seq<string>)
    requires |lines| >= 2 && lines[0] == ""
    ensures |Join(lines, "\n")| >= 1 && Join(lines, "\n")[0] == '\n'
  {
  }

  function NamePath(s: Skill): (string, string)
  {
    (s.name, s.path)
  }

  function PairKey(p: (string, string)): string
  {
    p.0
  }

  function PairLine(p: (string, string)): string
  {
    p.0 + ": " + p.1 + "/"
  }

  /**
   * The routing text depends only on the names and paths of the skills,
   * not on the order in which they were found, once names are distinct.
   */
  lemma RouterTextDeterministic(a: seq<Skill>, b: seq<Skill>)
    requires DistinctKeys(a, Name) && DistinctKeys(b, Name)
    requires forall p :: p in MapSeq(NamePath, a) <==> p in MapSeq(NamePath, b)
    ensures RouterText(a) == RouterText(b)
  {
    var sa := SortByPairs(a);
    var sb := SortByPairs(b);
    SortedUnique(sa, sb, PairKey);
    RouteLinesByPairs(a);
    RouteLinesByPairs(b);
  }

  /** The name-and-path pairs of `s`, sorted by name; distinct names stay distinct. */
  lemma SortByPairs(s: seq<Skill>) returns (sorted: seq<(string, string)>)
    requires DistinctKeys(s, Name)
    ensures sorted == SortBy(MapSeq(NamePath, s), PairKey)
    ensures SortedBy(sorted, PairKey) && DistinctKeys(sorted, PairKey)
    ensures forall p :: p in sorted <==> p in MapSeq(NamePath, s)
  {
    var pairs := MapSeq(NamePath, s);
    PairsDistinct(s);
    sorted := SortBy(pairs, PairKey);
    SortByDistinct(pairs, PairKey);
    forall p
      ensures p in sorted <==> p in pairs
    {
      SortByMember(pairs, PairKey, p);
    }
  }

  lemma PairsDistinct(s: seq<Skill>)
    requires DistinctKeys(s, Name)
    ensures DistinctKeys(MapSeq(NamePath, s), PairKey)
  {
    var pairs := MapSeq(NamePath, s);
    assert forall i :: 0 <= i < |s| ==> PairKey(pairs[i]) == Name(s[i]);
  }

  /** The skill lines are the pair lines of the name-sorted pairs. */
  lemma RouteLinesByPairs(s: seq<Skill>)
    ensures RouterLines(s) == [Title, ""] + MapSeq(PairLine, SortBy(MapSeq(NamePath, s), PairKey)) + [""]
  {
    SortByMap(NamePath, s, Name, PairKey);
    MapSeqCompose(NamePath, PairLine, RouteLine, SortBy(s, Name));
  }

  /** With distinct names, there are as many names as skills. */
  lemma {:induction false} NamesCount(s: seq<Skill>)
    requires DistinctKeys(s, Name)
    ensures |Names(s)| == |s|
    decreases |s|
  {
    if s != [] {
      var n := |s| - 1;
      var init := s[..n];
      assert DistinctKeys(init, Name);
      NamesCount(init);
      NamesStep(s, n);
      assert s[..n + 1] == s;
    }
  }

  /**
   * The routing file written after deduplication has one line for every
   * distinct name found, besides the title and the two blank lines.
   */
  lemma DeduplicatedRouterLines(skills: seq<Skill>)
    ensures |RouterLines(FirstOccurrences(skills))| == |Names(skills)| + 3
  {
    FirstOccurrencesNames(skills);
    NamesCount(FirstOccurrences(skills));
  }

  const NoDescription: string := "(no description)"

  /**
   * The description `--list` shows: the placeholder when there is none,
   * otherwise the description cut to 57 characters and `...` once it is
   * longer than 60. What is shown never exceeds 60 characters and starts
   * like the description.
   */
  function ShownDescription(description: Option<string>): (shown: string)
    ensures |shown| <= 60
    ensures description.None? || description.value == "" ==> shown == NoDescription
    ensures description.Some? && 0 < |description.value| <= 60 ==> shown == description.value
    ensures description.Some? && |description.value| > 60 ==>
              |shown| == 60 && shown[..57] == description.value[..57] && shown[57..] == "..."
  {
    var text := if description.Some? && description.value != "" then description.value else NoDescription;
    if |text| > 60 then text[..57] + "..." else text
  }

}
