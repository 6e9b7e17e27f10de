/**
  The monitor's records and its snapshot, and the three change detectors
  (`detect_new_repos`, `detect_new_releases`, `detect_new_tags`). Each
  detector is an order-preserving filter of a freshly fetched list against
  the snapshot; none of them changes the snapshot.
 */
module State {

  import opened Seqs

  /** A repository as listed by the organization (and as the snapshot keeps it). */
  datatype Repo = Repo(name: string, id: int)

  /** A fetched release; the notifier uses its tag name and body. */
  datatype Release = Release(id: int, tagName: string, body: string)

  /** A fetched tag and the commit it points to. */
  datatype Tag = Tag(name: string, sha: string)

  /** What the snapshot remembers of a release. */
  datatype ReleaseSummary = ReleaseSummary(id: int, tagName: string)

  /** What the snapshot remembers of a tag. */
  datatype TagSummary = TagSummary(name: string, commit: string)

  /**
    The persisted snapshot: the last repository listing, and per repository
    name the last non-empty release and tag lists.
   */
  datatype Snapshot = Snapshot(
    repos: seq<Repo>,
    releases: map<string, seq<ReleaseSummary>>,
    tags: map<string, seq<TagSummary>>)

  /** The snapshot used when no state file can be read. */
  function EmptySnapshot(): (s: Snapshot)
    ensures s.repos == []
    ensures forall repoName :: StoredReleases(s, repoName) == [] && StoredTags(s, repoName) == []
  {
    Snapshot([], map[], map[])
  }

  /** `state["releases"].get(repo_name, [])`: a missing key reads as no releases. */
  function StoredReleases(s: Snapshot, repoName: string): (stored: seq<ReleaseSummary>)
    ensures repoName in s.releases ==> stored == s.releases[repoName]
    ensures repoName !in s.releases ==> stored == []
  {
    if repoName in s.releases then s.releases[repoName] else []
  }

  /** `state["tags"].get(repo_name, [])`: a missing key reads as no tags. */
  function StoredTags(s: Snapshot, repoName: string): (stored: seq<TagSummary>)
    ensures repoName in s.tags ==> stored == s.tags[repoName]
    ensures repoName !in s.tags ==> stored == []
  {
    if repoName in s.tags then s.tags[repoName] else []
  }

  function RepoNames(rs: seq<Repo>): set<string>
  {
    set r | r in rs :: r.name
  }

  function ReleaseIds(rs: seq<ReleaseSummary>): set<int>
  {
    set r | r in rs :: r.id
  }

  function TagNames(ts: seq<TagSummary>): set<string>
  {
    set t | t in ts :: t.name
  }

  /** The entries written into the snapshot for a fetched release list. */
  function ReleaseSummaries(rs: seq<Release>): (sums: seq<ReleaseSummary>)
    ensures |sums| == |rs|
    ensures forall i :: 0 <= i < |rs| ==> sums[i].tagName == rs[i].tagName
    ensures ReleaseIds(sums) == set r | r in rs :: r.id
  {
    var sums := seq(|rs|, i requires 0 <= i < |rs| => ReleaseSummary(rs[i].id, rs[i].tagName));
    SameIds(rs, sums);
    sums
  }

  /** Position-wise equal ids give equal id sets. */
  lemma SameIds(rs: seq<Release>, sums: seq<ReleaseSummary>)
    requires |sums| == |rs| && forall i :: 0 <= i < |rs| ==> sums[i].id == rs[i].id
    ensures ReleaseIds(sums) == set r | r in rs :: r.id
  {
    forall x | x in ReleaseIds(sums) ensures x in (set r | r in rs :: r.id) {
      var i :| 0 <= i < |sums| && sums[i].id == x;
      assert rs[i] in rs;
    }
    forall x | x in (set r | r in rs :: r.id) ensures x in ReleaseIds(sums) {
      var i :| 0 <= i < |rs| && rs[i].id == x;
      assert sums[i] in sums;
    }
  }

  lemma OneReleaseSummary(r: Release)
    ensures ReleaseSummaries([r]) == [ReleaseSummary(r.id, r.tagName)]
  {
  }

  /** The entries written into the snapshot for a fetched tag list. */
  function TagSummaries(ts: seq<Tag>): (sums: seq<TagSummary>)
    ensures |sums| == |ts|
    ensures TagNames(sums) == set t | t in ts :: t.name
  {
    var sums := seq(|ts|, i requires 0 <= i < |ts| => TagSummary(ts[i].name, ts[i].sha));
    SameNames(ts, sums);
    sums
  }

  /** Position-wise equal names give equal name sets. */
  lemma SameNames(ts: seq<Tag>, sums: seq<TagSummary>)
    requires |sums| == |ts| && forall i :: 0 <= i < |ts| ==> sums[i].name == ts[i].name
    ensures TagNames(sums) == set t | t in ts :: t.name
  {
    forall x | x in TagNames(sums) ensures x in (set t | t in ts :: t.name) {
      var i :| 0 <= i < |sums| && sums[i].name == x;
      assert ts[i] in ts;
    }
    forall x | x in (set t | t in ts :: t.name) ensures x in TagNames(sums) {
      var i :| 0 <= i < |ts| && ts[i].name == x;
      assert sums[i] in sums;
    }
  }

  lemma OneTagSummary(t: Tag)
    ensures TagSummaries([t]) == [TagSummary(t.name, t.sha)]
  {
  }

  /**
    `detect_new_repos`: the listed repositories whose name the snapshot does
    not know, in listing order and with their multiplicity; ids play no part.
   */
  function NewRepos(current: seq<Repo>, s: Snapshot): (found: seq<Repo>)
    ensures IsSubseq(found, current)
    ensures forall r {:trigger r in found} :: r in found <==> r in current && r.name !in RepoNames(s.repos)
    ensures forall r: Repo {:trigger multiset(found)[r]} :: r.name !in RepoNames(s.repos) ==> multiset(found)[r] == multiset(current)[r]
  {
    var known := RepoNames(s.repos);
    Filter(current, (r: Repo) => r.name !in known)
  }

  /**
    `detect_new_releases`: the fetched releases whose id is not among the
    stored releases of the repository, in fetch order.
   */
  function NewReleases(repoName: string, current: seq<Release>, s: Snapshot): (found: seq<Release>)
    ensures IsSubseq(found, current)
    ensures forall r {:trigger r in found} :: r in found <==> r in current && r.id !in ReleaseIds(StoredReleases(s, repoName))
    ensures forall r: Release {:trigger multiset(found)[r]} :: r.id !in ReleaseIds(StoredReleases(s, repoName)) ==>
              multiset(found)[r] == multiset(current)[r]
  {
    var known := ReleaseIds(StoredReleases(s, repoName));
    Filter(current, (r: Release) => r.id !in known)
  }

  /**
    `detect_new_tags`: the fetched tags whose name is not among the stored
    tags of the repository, in fetch order.
   */
  function NewTags(repoName: string, current: seq<Tag>, s: Snapshot): (found: seq<Tag>)
    ensures IsSubseq(found, current)
    ensures forall t {:trigger t in found} :: t in found <==> t in current && t.name !in TagNames(StoredTags(s, repoName))
    ensures forall t: Tag {:trigger multiset(found)[t]} :: t.name !in TagNames(StoredTags(s, repoName)) ==>
              multiset(found)[t] == multiset(current)[t]
  {
    var known := TagNames(StoredTags(s, repoName));
    Filter(current, (t: Tag) => t.name !in known)
  }
}
