/**
 * The name of a job's resources in the infrastructure, which is also the key by which the registry
 * and the infrastructure are compared.
 */
module Resources {
  import opened Strings
  import opened SemVer
  import opened Jobs

  function DotsToDashes(s: string): (r: string)
    ensures |r| == |s|
    ensures forall i | 0 <= i < |s| :: r[i] == if s[i] == '.' then '-' else s[i]
  {
    if s == "" then "" else [if s[0] == '.' then '-' else s[0]] + DotsToDashes(s[1..])
  }

  function ResourceName(id: JobId): string {
    DotsToDashes("job-" + id.name + "-v-" + id.version)
  }

  // Three numbers separated by dots
  predicate IsLabelFree(version: string) {
    Parse(version).Some? && Parse(version).value.IsStable()
  }

  // The characters of a version without a label
  lemma LabelFreeCharacters(version: string)
    requires IsLabelFree(version)
    ensures version != "" && IsDigit(version[0])
    ensures forall i | 0 <= i < |version| :: IsDigit(version[i]) || version[i] == '.'
  {
  }

  // name, "-v-" and a version in dashes can be taken apart again.
  lemma {:induction false} SplitOffVersion(n1: string, v1: string, n2: string, v2: string)
    requires n1 + "-v-" + v1 == n2 + "-v-" + v2
    requires v1 != "" && IsDigit(v1[0]) && forall i | 0 <= i < |v1| :: IsDigit(v1[i]) || v1[i] == '-'
    requires v2 != "" && IsDigit(v2[0]) && forall i | 0 <= i < |v2| :: IsDigit(v2[i]) || v2[i] == '-'
    ensures n1 == n2 && v1 == v2
  {
    NotShorter(n1, v1, n2, v2);
    NotShorter(n2, v2, n1, v1);
    var s := n1 + "-v-" + v1;
    assert |n1| == |n2|;
    assert n1 == s[..|n1|] == n2;
    assert v1 == s[|n1| + 3..] == v2;
  }

  lemma {:induction false} NotShorter(n1: string, v1: string, n2: string, v2: string)
    requires n1 + "-v-" + v1 == n2 + "-v-" + v2
    requires v2 != "" && IsDigit(v2[0]) && forall i | 0 <= i < |v2| :: IsDigit(v2[i]) || v2[i] == '-'
    ensures |v2| <= |v1|
  {
    var s := n1 + "-v-" + v1;
    var start := |n2| + 3;
    assert forall i | start <= i < |s| :: s[i] == v2[i - start];
    assert s[|n1| + 1] == 'v' && s[|n1| + 2] == '-';
  }

  // The key is injective on names without dots and versions without labels.
  lemma ResourceNameIsInjective(x: JobId, y: JobId)
    requires '.' !in x.name && '.' !in y.name && IsLabelFree(x.version) && IsLabelFree(y.version)
    requires ResourceName(x) == ResourceName(y)
    ensures x == y
  {
    LabelFreeCharacters(x.version);
    LabelFreeCharacters(y.version);
    Parts(x);
    Parts(y);
    var s := ResourceName(x);
    assert x.name + "-v-" + DotsToDashes(x.version) == s[4..] == y.name + "-v-" + DotsToDashes(y.version);
    SplitOffVersion(x.name, DotsToDashes(x.version), y.name, DotsToDashes(y.version));
    SameVersion(x.version, y.version);
  }

  lemma Parts(x: JobId)
    requires '.' !in x.name
    ensures ResourceName(x) == "job-" + (x.name + "-v-" + DotsToDashes(x.version))
  {
  }

  lemma SameVersion(v: string, w: string)
    requires DotsToDashes(v) == DotsToDashes(w)
    requires forall i | 0 <= i < |v| :: IsDigit(v[i]) || v[i] == '.'
    requires forall i | 0 <= i < |w| :: IsDigit(w[i]) || w[i] == '.'
    ensures v == w
  {
  }

  // A name with a dot shares its key with the name that has a dash there.
  lemma DottedNamesCollide(a: string, b: string, version: string)
    ensures ResourceName(JobId(a + "." + b, version)) == ResourceName(JobId(a + "-" + b, version))
  {
  }

  // A label that repeats the separator shares its key with a longer name.
  lemma LabelledVersionsCollide(name: string, version: string, other: string)
    ensures ResourceName(JobId(name, version + "-v-" + other)) == ResourceName(JobId(name + "-v-" + version, other))
  {
  }

  // The name is a label without dots, and it is made of the parts in their order, as they are if they have no
  // dots.
  lemma ResourceNameIsALabel(id: JobId)
    ensures '.' !in ResourceName(id)
    ensures '.' !in id.name && '.' !in id.version ==> ResourceName(id) == "job-" + id.name + "-v-" + id.version
  {
  }
}
