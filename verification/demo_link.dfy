/**
  The "Live Demo" button of the project carousel: it takes the project's GitHub
  URL, drops the first "https://github.com/", and if the rest names the
  portfolio owner's account it opens the owner's GitHub Pages site at the last
  path segment; otherwise it opens the original URL. Instead of opening a
  window, the model returns the URL that would be opened.
 */
module DemoLink {

  import opened Wrappers

  const GitHubPrefix: string := "https://github.com/"
  const Owner: string := "atifashraf46"
  const PagesBase: string := "https://atifashraf46.github.io/"

  /** `pat` occurs in `s` starting at position `i`. */
  predicate OccursAt(s: string, pat: string, i: nat) {
    i + |pat| <= |s| && s[i..i + |pat|] == pat
  }

  /** `i` is where `pat` first occurs in `s`. */
  predicate FirstOccurrence(s: string, pat: string, i: nat) {
    OccursAt(s, pat, i) && forall k: nat :: k < i ==> !OccursAt(s, pat, k)
  }

  /** `pat` occurs nowhere in `s`. */
  predicate Absent(s: string, pat: string) {
    forall k: nat :: k <= |s| ==> !OccursAt(s, pat, k)
  }

  /** The first occurrence of `pat` in `s` at or after `from`. */
  function IndexFrom(s: string, pat: string, from: nat): (r: Option<nat>)
    requires forall k: nat :: k < from ==> !OccursAt(s, pat, k)
    ensures r.Some? ==> FirstOccurrence(s, pat, r.value)
    ensures r.None? ==> Absent(s, pat)
    decreases |s| - from
  {
    if from + |pat| > |s| then
      assert forall k: nat :: k >= from ==> !OccursAt(s, pat, k);
      None
    else if s[from..from + |pat|] == pat then Some(from)
    else IndexFrom(s, pat, from + 1)
  }

  /** The first occurrence of `pat` in `s`, if any. */
  function IndexOf(s: string, pat: string): (r: Option<nat>)
    ensures r.Some? ==> FirstOccurrence(s, pat, r.value)
    ensures r.None? ==> Absent(s, pat)
  {
    IndexFrom(s, pat, 0)
  }

  /** Substring test: `pat` occurs somewhere in `s`. */
  predicate Contains(s: string, pat: string) {
    IndexOf(s, pat).Some?
  }

  /** Replacement with a string pattern: only the first occurrence is replaced. */
  function ReplaceFirst(s: string, pat: string, rep: string): (r: string)
    ensures Absent(s, pat) ==> r == s
    ensures forall i: nat :: FirstOccurrence(s, pat, i) ==> r == s[..i] + rep + s[i + |pat|..]
  {
    match IndexOf(s, pat)
    case None => s
    case Some(i) =>
      assert forall j: nat :: FirstOccurrence(s, pat, j) ==> j == i;
      s[..i] + rep + s[i + |pat|..]
  }

  /** Position of the last '/' in `s`, or -1 when there is none. */
  function LastSlash(s: string): (r: int)
    ensures -1 <= r < |s|
    ensures r >= 0 ==> s[r] == '/'
    ensures forall k :: r < k < |s| ==> s[k] != '/'
    decreases |s|
  {
    if |s| == 0 then -1
    else if s[|s| - 1] == '/' then |s| - 1
    else LastSlash(s[..|s| - 1])
  }

  /**
    The last element of splitting `s` at every '/': the longest suffix that
    holds no '/' (empty when `s` ends in '/').
   */
  function LastSegment(s: string): (r: string)
    ensures '/' !in r
    ensures |r| <= |s| && s[|s| - |r|..] == r
    ensures |r| < |s| ==> s[|s| - |r| - 1] == '/'
  {
    var r := s[LastSlash(s) + 1..];
    assert forall j :: 0 <= j < |r| ==> r[j] == s[LastSlash(s) + 1 + j];
    r
  }

  /** What is left of the GitHub URL once the first "https://github.com/" is removed. */
  function RepoPath(github: string): string {
    ReplaceFirst(github, GitHubPrefix, "")
  }

  /** The URL the "Live Demo" button opens for a project whose GitHub link is `github`. */
  function LiveDemoUrl(github: string): (r: string)
    ensures !Contains(RepoPath(github), Owner) ==> r == github
    ensures Contains(RepoPath(github), Owner) ==>
              && |PagesBase| <= |r|
              && r[..|PagesBase|] == PagesBase
              && '/' !in r[|PagesBase|..]
              && r[|PagesBase|..] == LastSegment(RepoPath(github))
  {
    var repoPath := RepoPath(github);
    if Contains(repoPath, Owner) then
      var r := PagesBase + LastSegment(repoPath);
      assert r[|PagesBase|..] == LastSegment(repoPath);
      r
    else github
  }

  /** A character inside a suffix of `s` is a character of that suffix. */
  lemma SuffixHolds(s: string, r: string, i: int)
    requires |r| <= |s| && s[|s| - |r|..] == r
    requires |s| - |r| <= i < |s|
    ensures s[i] in r
  {
    assert s[i] == r[i - (|s| - |r|)];
  }

  /** A character after the separating '/' of `p + "/" + name` is a character of `name`. */
  lemma AfterSlashHolds(p: string, name: string, i: int)
    requires |p| < i < |p| + 1 + |name|
    ensures (p + "/" + name)[i] in name
  {
    assert (p + "/" + name)[i] == name[i - |p| - 1];
  }

  /** The only slash-free suffix that reaches back to a '/' of `p + "/" + name` is `name`. */
  lemma LastSegmentAfterSlash(p: string, name: string)
    requires '/' !in name
    ensures LastSegment(p + "/" + name) == name
  {
    var s := p + "/" + name;
    var r := LastSegment(s);
    assert s[|p|] == '/';
    if |r| > |name| {
      SuffixHolds(s, r, |p|);
      assert false;
    } else if |r| < |name| {
      AfterSlashHolds(p, name, |s| - |r| - 1);
      assert false;
    }
    assert s[|s| - |name|..] == name;
  }

  /** A string that starts with `pat` has its first occurrence at position 0. */
  lemma PrefixIsFirst(s: string, pat: string)
    requires |pat| <= |s| && s[..|pat|] == pat
    ensures IndexOf(s, pat) == Some(0)
  {
    assert OccursAt(s, pat, 0);
  }

  /** Regrouping a five-part concatenation behind its first part. */
  lemma Regroup(a: string, b: string, c: string, d: string, e: string)
    ensures a + b + c + d + e == a + ((b + c) + d + e)
  {
  }

  /** Once the path left after the prefix names the owner, the button opens that path's last segment. */
  lemma RewriteOfOwnerPath(github: string, rest: string, name: string)
    requires RepoPath(github) == rest && IndexOf(rest, Owner).Some? && LastSegment(rest) == name
    ensures LiveDemoUrl(github) == PagesBase + name
  {
  }

  /** Removing the first `pat` from `pat + rest` leaves `rest`. */
  lemma LeadingPatternRemoved(pat: string, rest: string)
    ensures ReplaceFirst(pat + rest, pat, "") == rest
  {
    PrefixIsFirst(pat + rest, pat);
    assert (pat + rest)[|pat|..] == rest;
  }

  /**
    Every repository of the owner, "https://github.com/atifashraf46/.../name",
    is sent to the owner's Pages site at its last path segment.
   */
  lemma OwnerRepositoryGoesToPages(path: string, name: string)
    requires '/' !in name
    ensures LiveDemoUrl(GitHubPrefix + Owner + path + "/" + name) == PagesBase + name
  {
    var rest := (Owner + path) + "/" + name;
    Regroup(GitHubPrefix, Owner, path, "/", name);
    LeadingPatternRemoved(GitHubPrefix, rest);
    PrefixIsFirst(rest, Owner);
    LastSegmentAfterSlash(Owner + path, name);
    RewriteOfOwnerPath(GitHubPrefix + rest, rest, name);
  }

  /** The Amazon clone's repository link becomes its Pages site. */
  lemma AmazonCloneExample()
    ensures LiveDemoUrl(GitHubPrefix + Owner + "/Amazon-Clone") == PagesBase + "Amazon-Clone"
  {
    assert GitHubPrefix + Owner + "/Amazon-Clone" == GitHubPrefix + Owner + "" + "/" + "Amazon-Clone";
    OwnerRepositoryGoesToPages("", "Amazon-Clone");
  }

  /** A link into a sub-folder keeps only the folder's last segment. */
  lemma SubFolderExample()
    ensures LiveDemoUrl(GitHubPrefix + Owner + "/MICRO.IT/tree/main/TIC-TAC-TOE") == PagesBase + "TIC-TAC-TOE"
  {
    assert GitHubPrefix + Owner + "/MICRO.IT/tree/main/TIC-TAC-TOE"
        == GitHubPrefix + Owner + "/MICRO.IT/tree/main" + "/" + "TIC-TAC-TOE";
    OwnerRepositoryGoesToPages("/MICRO.IT/tree/main", "TIC-TAC-TOE");
  }

  /**
    A URL that mentions neither GitHub's prefix nor the owner is opened as it
    is. Absence of the owner alone is not enough, because the owner test runs
    after the prefix is removed, and the removal can join two fragments into
    the owner's name (`SplicedOwnerGoesToPages`).
   */
  lemma ForeignUrlUnchanged(github: string)
    requires Absent(github, GitHubPrefix) && Absent(github, Owner)
    ensures LiveDemoUrl(github) == github
  {
  }

  /** The placeholder link "#" of unpublished projects is opened as it is. */
  lemma PlaceholderUnchanged()
    ensures LiveDemoUrl("#") == "#"
  {
    assert forall k: nat :: !OccursAt("#", GitHubPrefix, k);
    assert forall k: nat :: !OccursAt("#", Owner, k);
    ForeignUrlUnchanged("#");
  }

  /** When no character of `u` can start `pat`, the `pat` right after `u` is its first occurrence. */
  lemma FirstAfter(u: string, pat: string, v: string)
    requires |pat| > 0 && pat[0] !in u
    ensures FirstOccurrence(u + pat + v, pat, |u|)
  {
    var s := u + pat + v;
    assert s[|u|..|u| + |pat|] == pat;
    forall k: nat | k < |u|
      ensures !OccursAt(s, pat, k)
    {
      if k + |pat| <= |s| {
        assert s[k..k + |pat|][0] == u[k];
      }
    }
  }

  /**
    When no character of `u` can start the prefix, the prefix right after `u`
    is its first occurrence, and removing it joins `u` to what follows.
   */
  lemma RemovalJoins(u: string, v: string)
    requires GitHubPrefix[0] !in u
    ensures RepoPath(u + GitHubPrefix + v) == u + v
  {
    var s := u + GitHubPrefix + v;
    FirstAfter(u, GitHubPrefix, v);
    assert s[..|u|] == u && s[|u| + |GitHubPrefix|..] == v;
  }

  /** The spliced URL below does not contain the owner's name anywhere. */
  lemma SplicedUrlLacksOwner()
    ensures Absent("atif" + GitHubPrefix + "ashraf46/x", Owner)
  {
    var s := "atif" + GitHubPrefix + "ashraf46/x";
    forall k: nat | k <= |s|
      ensures !OccursAt(s, Owner, k)
    {
      if k + |Owner| <= |s| {
        var w := s[k..k + |Owner|];
        assert w[0] == s[k] && w[1] == s[k + 1] && w[4] == s[k + 4];
      }
    }
  }

  /**
    A URL that does not contain the owner's name still goes to the owner's Pages
    site when removing the prefix joins "atif" and "ashraf46".
   */
  lemma SplicedOwnerGoesToPages()
    ensures Absent("atif" + GitHubPrefix + "ashraf46/x", Owner)
    ensures LiveDemoUrl("atif" + GitHubPrefix + "ashraf46/x") == PagesBase + "x"
  {
    RemovalJoins("atif", "ashraf46/x");
    assert "atif" + "ashraf46/x" == Owner + "/" + "x";
    PrefixIsFirst(Owner + "/" + "x", Owner);
    LastSegmentAfterSlash(Owner, "x");
    SplicedUrlLacksOwner();
  }

  /** Only the first "https://github.com/" is removed; a second one stays. */
  lemma OnlyFirstPrefixRemoved()
    ensures RepoPath("https://github.com/https://github.com/x") == "https://github.com/x"
  {
    var s := "https://github.com/https://github.com/x";
    PrefixIsFirst(s, GitHubPrefix);
    assert s[|GitHubPrefix|..] == "https://github.com/x";
  }
}
