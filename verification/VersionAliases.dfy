/**
 * Look-ups by version alias: a job by "latest" or by an x-pattern, a job type by "latest" or by an
 * asterisk pattern.
 */
module VersionAliases {
  import opened Wrappers
  import opened Strings
  import opened SemVer
  import opened LatestVersion
  import opened VersionPattern
  import opened Jobs

  datatype Job = Job(id: string, name: string, version: string, status: JobStatus)

  // The jobs that the aliases range over
  predicate Eligible(j: Job, name: string) {
    j.name == name && j.status in {RUNNING, ERROR, LOST}
  }

  function Candidates(jobs: seq<Job>, name: string): (cs: seq<Job>)
    ensures forall j :: j in cs <==> j in jobs && Eligible(j, name)
  {
    if jobs == [] then [] else (if Eligible(jobs[0], name) then [jobs[0]] else []) + Candidates(jobs[1..], name)
  }

  function FindExact(jobs: seq<Job>, name: string, version: string): (r: Result<Job, string>)
    ensures r.Ok? ==> r.value in jobs && r.value.name == name && r.value.version == version
    ensures r.Err? ==> forall j | j in jobs :: !(j.name == name && j.version == version)
  {
    if jobs == [] then Err("not found")
    else if jobs[0].name == name && jobs[0].version == version then Ok(jobs[0])
    else FindExact(jobs[1..], name, version)
  }

  ghost function VersionKey(j: Job): string {
    j.version
  }

  ghost function FindLatestJob(jobs: seq<Job>, name: string, keep: Version -> bool): Result<Job, string> {
    var cs := Candidates(jobs, name);
    if cs == [] then Err("no such job")
    else
      var r := FindLatest(cs, j => VersionKey(j), keep);
      if r.Err? then Err(r.error) else if r.value.None? then Err("no stable version") else Ok(r.value.value)
  }

  ghost function Stable(): Version -> bool {
    (v: Version) => v.IsStable()
  }

  ghost function StableMatching(p: seq<Elem>): Version -> bool {
    (v: Version) => v.IsStable() && Matches(p, Print(v))
  }

  // resolve_job_model
  ghost function ResolveJob(jobs: seq<Job>, name: string, version: string): Result<Job, string> {
    if version == "latest" then FindLatestJob(jobs, name, Stable())
    else if IsXPattern(version) then FindLatestJob(jobs, name, StableMatching(FromXPattern(version).value))
    else FindExact(jobs, name, version)
  }

  // j is a job of that name that is not starting and whose version is wanted, and it precedes no other such job.
  ghost predicate IsLatestJob(jobs: seq<Job>, name: string, j: Job, wanted: Version -> bool) {
    && j in jobs && j.name == name && j.status in {RUNNING, ERROR, LOST}
    && Parse(j.version).Some? && wanted(Parse(j.version).value)
    && forall k | k in jobs && Eligible(k, name) && Parse(k.version).Some? && wanted(Parse(k.version).value) ::
         !Precedes(Parse(j.version).value, Parse(k.version).value)
  }

  lemma FindLatestJobFindsIt(jobs: seq<Job>, name: string, keep: Version -> bool)
    ensures var r := FindLatestJob(jobs, name, keep);
      && (r.Ok? ==> IsLatestJob(jobs, name, r.value, keep))
      && ((forall k | k in jobs && Eligible(k, name) :: Parse(k.version).Some?) && r.Err? ==>
          forall k | k in jobs && Eligible(k, name) :: !keep(Parse(k.version).value))
  {
    var cs := Candidates(jobs, name);
    var key := (j: Job) => VersionKey(j);
    FindLatestFindsTheLatest(cs, key, keep);
    var r := FindLatest(cs, key, keep);
    if AllParse(cs, key) {
      var vs := Versions(cs, key);
      forall k | k in cs ensures Parse(k.version).Some? && Parse(k.version).value in vs {
        var i :| 0 <= i < |cs| && cs[i] == k;
        assert vs[i] == VersionOf(cs[i], key);
      }
      if r.value.Some? {
        var i: nat :| IsLatest(vs, keep, i) && cs[i] == r.value.value;
        assert cs[i] in cs && vs[i] == VersionOf(cs[i], key);
      }
    }
  }

  // What an alias resolves to: a job of that name that is not starting, with a stable version that the
  // alias selects, and the greatest such version. It resolves to nothing only if there is no such job
  // (or a version of the family cannot be parsed).
  lemma ResolvedJobIsTheLatest(jobs: seq<Job>, name: string, version: string)
    requires version == "latest" || IsXPattern(version)
    ensures var r := ResolveJob(jobs, name, version);
      var wanted := (v: Version) => v.IsStable() && (version == "latest" || Selects(Split(version, '.'), v, 'x'));
      && (r.Ok? ==> IsLatestJob(jobs, name, r.value, wanted))
      && ((forall k | k in jobs && Eligible(k, name) :: Parse(k.version).Some?) && r.Err? ==>
          forall k | k in jobs && Eligible(k, name) :: !wanted(Parse(k.version).value))
  {
    if version == "latest" {
      FindLatestJobFindsIt(jobs, name, Stable());
    } else {
      var keep := StableMatching(FromXPattern(version).value);
      FindLatestJobFindsIt(jobs, name, keep);
      forall v: Version ensures keep(v) <==> v.IsStable() && Selects(Split(version, '.'), v, 'x') {
        if v.IsStable() {
          XPatternMatchesExactly(version, v);
        }
      }
    }
  }

  // ---------------------------------------------------------------------------------------------
  // Job types, given as "name:version"

  predicate StartsWith(s: string, prefix: string) {
    |prefix| <= |s| && s[..|prefix|] == prefix
  }

  // The versions of the entries that start with "name:"
  function VersionsOf(all: seq<string>, name: string): seq<string> {
    if all == [] then []
    else
      var rest := VersionsOf(all[1..], name);
      if StartsWith(all[0], name + ":") && |Split(all[0], ':')| > 1 then [Split(all[0], ':')[1]] + rest else rest
  }

  ghost function Text(): string -> string {
    s => s
  }

  // The versions that an alias lets through
  ghost function AliasFilter(version: string): Version -> bool {
    if version == "latest" || !IsAsteriskPattern(version) then ((v: Version) => true)
    else ((v: Version) => Matches(FromAsteriskPattern(version).value, Print(v)))
  }

  // The last element of the sorted list of versions is the last one with the greatest version.
  ghost function FindVersion(all: seq<string>, name: string, keep: Version -> bool): Result<string, string> {
    var r := FindLatest(VersionsOf(all, name), Text(), keep);
    if r.Ok? && r.value.Some? then Ok(r.value.value) else Err("no matching version")
  }

  // match_job_type_version
  ghost function MatchJobType(lang: string, all: seq<string>): Result<string, string> {
    var parts := Split(lang, ':');
    if |parts| != 2 then Err("should be name:version")
    else if parts[1] == "latest" || IsAsteriskPattern(parts[1]) then
      var r := FindVersion(all, parts[0], AliasFilter(parts[1]));
      if r.Ok? then Ok(parts[0] + ":" + r.value) else r
    else if lang in all then Ok(lang) else Err("not supported")
  }

  // Every job type has the form "name:version", which is asserted when they are gathered.
  ghost predicate OneColonEach(all: seq<string>) {
    forall i | 0 <= i < |all| :: |Split(all[i], ':')| == 2
  }

  lemma EntryOfVersion(entry: string, name: string)
    requires StartsWith(entry, name + ":") && |Split(entry, ':')| == 2 && ':' !in name
    ensures entry == name + ":" + Split(entry, ':')[1]
  {
    var rest := entry[|name| + 1..];
    assert entry == name + ":" + rest;
    SplitOfConcat(name, rest, ':');
    JoinSplit(rest, ':');
  }

  lemma {:induction false} VersionsAreOfEntries(all: seq<string>, name: string, v: string)
    requires OneColonEach(all) && ':' !in name && v in VersionsOf(all, name)
    ensures name + ":" + v in all
  {
    if StartsWith(all[0], name + ":") && v == Split(all[0], ':')[1] {
      EntryOfVersion(all[0], name);
    } else {
      VersionsAreOfEntries(all[1..], name, v);
    }
  }

  // The version found is one of those listed for the name, and the greatest that the filter lets through.
  lemma FoundVersionIsTheLatest(all: seq<string>, name: string, keep: Version -> bool)
    requires FindVersion(all, name, keep).Ok?
    ensures var text := FindVersion(all, name, keep).value;
      && text in VersionsOf(all, name) && Parse(text).Some? && keep(Parse(text).value)
      && forall t | t in VersionsOf(all, name) :: Parse(t).Some? && (keep(Parse(t).value) ==> !Precedes(Parse(text).value, Parse(t).value))
  {
    var texts := VersionsOf(all, name);
    FindLatestFindsTheLatest(texts, Text(), keep);
    var vs := Versions(texts, Text());
    var i: nat :| IsLatest(vs, keep, i) && texts[i] == FindVersion(all, name, keep).value;
    assert vs[i] == VersionOf(texts[i], Text());
    VersionsOfTexts(texts);
  }

  lemma VersionsOfTexts(texts: seq<string>)
    requires AllParse(texts, Text())
    ensures forall t | t in texts :: Parse(t).Some? && Parse(t).value in Versions(texts, Text())
  {
    var vs := Versions(texts, Text());
    forall t | t in texts ensures Parse(t).Some? && Parse(t).value in vs {
      var j :| 0 <= j < |texts| && texts[j] == t;
      assert vs[j] == VersionOf(texts[j], Text());
    }
  }

  lemma NoVersionIsFound(all: seq<string>, name: string, keep: Version -> bool)
    requires FindVersion(all, name, keep).Err?
    ensures AllParse(VersionsOf(all, name), Text()) ==> forall t | t in VersionsOf(all, name) :: Parse(t).Some? && !keep(Parse(t).value)
  {
    var texts := VersionsOf(all, name);
    FindLatestFindsTheLatest(texts, Text(), keep);
    if AllParse(texts, Text()) {
      VersionsOfTexts(texts);
    }
  }

  // Matching a job type always returns a member of the list.
  lemma MatchedJobTypeIsListed(lang: string, all: seq<string>)
    requires OneColonEach(all) && MatchJobType(lang, all).Ok?
    ensures MatchJobType(lang, all).value in all
  {
    var parts := Split(lang, ':');
    SplitIsFree(lang, ':');
    if parts[1] == "latest" || IsAsteriskPattern(parts[1]) {
      FoundVersionIsTheLatest(all, parts[0], AliasFilter(parts[1]));
      VersionsAreOfEntries(all, parts[0], FindVersion(all, parts[0], AliasFilter(parts[1])).value);
    }
  }

  lemma VersionsOfOne(name: string, text: string, extra: string)
    requires ':' !in name && ':' !in text
    ensures VersionsOf([name + ":" + (text + ":" + extra)], name) == [text]
  {
    var entry := name + ":" + (text + ":" + extra);
    SplitOfConcat(name, text + ":" + extra, ':');
    SplitOfConcat(text, extra, ':');
    assert StartsWith(entry, name + ":");
    assert [entry][1..] == [];
  }

  lemma LatestOfOne(text: string)
    requires Parse(text).Some?
    ensures FindLatest([text], Text(), AliasFilter("latest")) == Ok(Some(text))
  {
    var keep := AliasFilter("latest");
    FindLatestFindsTheLatest([text], Text(), keep);
    var vs := Versions([text], Text());
    assert vs[0] in vs && keep(vs[0]);
    var r := FindLatest([text], Text(), keep);
    var i: nat :| IsLatest(vs, keep, i) && [text][i] == r.value.value;
  }

  lemma LatestVersionOfOne(name: string, text: string, extra: string)
    requires ':' !in name && ':' !in text && Parse(text).Some?
    ensures FindVersion([name + ":" + (text + ":" + extra)], name, AliasFilter("latest")) == Ok(text)
  {
    VersionsOfOne(name, text, extra);
    LatestOfOne(text);
  }

  lemma SplitAlias(name: string)
    requires ':' !in name
    ensures Split(name + ":" + "latest", ':') == [name, "latest"]
  {
    SplitOfConcat(name, "latest", ':');
    SplitOfConcat("latest", "", ':');
  }

  // An entry with a second colon is cut off there, and the result is not in the list.
  lemma SecondColonIsCutOff(name: string, text: string, extra: string)
    requires ':' !in name && ':' !in text && Parse(text).Some?
    ensures var all := [name + ":" + (text + ":" + extra)];
      MatchJobType(name + ":" + "latest", all) == Ok(name + ":" + text) && name + ":" + text !in all
  {
    SplitAlias(name);
    LatestVersionOfOne(name, text, extra);
    assert |name + ":" + text| < |name + ":" + (text + ":" + extra)|;
  }

  // A version that is no alias resolves to the job of exactly that name and version, whatever its status.
  lemma ExactVersionResolvesToItsJob(jobs: seq<Job>, name: string, version: string)
    requires version != "latest" && !IsXPattern(version)
    ensures var r := ResolveJob(jobs, name, version);
      && (r.Ok? ==> r.value in jobs && r.value.name == name && r.value.version == version)
      && (r.Ok? <==> exists j :: j in jobs && j.name == name && j.version == version)
  {
  }

  // The listed version texts of a name: what is between the first colon of an entry and its second one, if any
  lemma {:induction false} ListedVersions(all: seq<string>, name: string, v: string)
    ensures v in VersionsOf(all, name)
      <==> exists entry :: entry in all && StartsWith(entry, name + ":") && |Split(entry, ':')| > 1 && Split(entry, ':')[1] == v
  {
    if all != [] {
      ListedVersions(all[1..], name, v);
    }
  }

  // What a job type resolves to. An alias gives a listed version of the same name: "latest" the greatest of
  // them, a pattern the greatest of those it matches. Anything else gives itself, if it is listed.
  lemma MatchedJobTypeIsTheGreatestMatch(name: string, version: string, all: seq<string>)
    requires ':' !in name && ':' !in version
    ensures var r := MatchJobType(name + ":" + version, all);
      var alias := version == "latest" || IsAsteriskPattern(version);
      && (!alias ==> (r.Ok? <==> name + ":" + version in all) && (r.Ok? ==> r.value == name + ":" + version))
      && (alias && r.Ok? ==> exists v :: r.value == name + ":" + v && IsGreatestMatch(all, name, v, version))
      && (alias && r.Err? ==> forall u | u in VersionsOf(all, name) && AllParse(VersionsOf(all, name), Text()) :: !LetThrough(Parse(u).value, version))
  {
    SplitOfConcat(name, version, ':');
    SplitOfConcat(version, "", ':');
    if version == "latest" || IsAsteriskPattern(version) {
      var keep := AliasFilter(version);
      var r := FindVersion(all, name, keep);
      if r.Ok? {
        FoundVersionIsTheLatest(all, name, keep);
        assert IsGreatestMatch(all, name, r.value, version);
      } else {
        NoVersionIsFound(all, name, keep);
      }
    }
  }

  // v is a version listed for the name, the alias lets it through, and it precedes no other such version.
  ghost predicate IsGreatestMatch(all: seq<string>, name: string, v: string, version: string) {
    && v in VersionsOf(all, name) && Parse(v).Some? && LetThrough(Parse(v).value, version)
    && forall u | u in VersionsOf(all, name) :: Parse(u).Some? && (LetThrough(Parse(u).value, version) ==> !Precedes(Parse(v).value, Parse(u).value))
  }

  ghost predicate LetThrough(v: Version, version: string) {
    version == "latest" || Matches(Compile(version, '*'), Print(v))
  }
}
