/**
  The reconciliation pass of `main` as a function of the loaded snapshot and
  of what the fetches returned: which notifications are sent, in which order,
  and what snapshot is saved. The class in monitor.dfy performs the same
  pass step by step and is proved to agree with `Pass`.
 */
module Reconcile {

  import opened Seqs
  import opened State

  /**
    What fetching one repository's releases and tags produced. A fetch that
    raises ends that repository's processing: `ReleasesFailed` when
    `fetch_releases` raised, `TagsFailed` when `fetch_tags` raised after the
    releases were fetched.
   */
  datatype FetchOutcome =
    | Fetched(releases: seq<Release>, tags: seq<Tag>)
    | ReleasesFailed
    | TagsFailed(releases: seq<Release>)

  /** One message handed to the notifier. */
  datatype Notification =
    | RepoNote(repo: Repo)
    | ReleaseNote(repoName: string, release: Release)
    | TagNote(repoName: string, tag: Tag)

  /** The snapshot after some processing, and the notifications it sent. */
  datatype Step = Step(snap: Snapshot, notes: seq<Notification>)

  function AnnounceRepos(rs: seq<Repo>): seq<Notification>
  {
    seq(|rs|, i requires 0 <= i < |rs| => RepoNote(rs[i]))
  }

  function AnnounceReleases(repoName: string, rs: seq<Release>): seq<Notification>
  {
    seq(|rs|, i requires 0 <= i < |rs| => ReleaseNote(repoName, rs[i]))
  }

  function AnnounceTags(repoName: string, ts: seq<Tag>): seq<Notification>
  {
    seq(|ts|, i requires 0 <= i < |ts| => TagNote(repoName, ts[i]))
  }

  lemma AnnounceReposSnoc(rs: seq<Repo>, r: Repo)
    ensures AnnounceRepos(rs + [r]) == AnnounceRepos(rs) + [RepoNote(r)]
  {
  }

  lemma AnnounceReleasesSnoc(repoName: string, rs: seq<Release>, r: Release)
    ensures AnnounceReleases(repoName, rs + [r]) == AnnounceReleases(repoName, rs) + [ReleaseNote(repoName, r)]
  {
  }

  lemma AnnounceTagsSnoc(repoName: string, ts: seq<Tag>, t: Tag)
    ensures AnnounceTags(repoName, ts + [t]) == AnnounceTags(repoName, ts) + [TagNote(repoName, t)]
  {
  }

  lemma AnnounceOneRelease(repoName: string, r: Release)
    ensures AnnounceReleases(repoName, [r]) == [ReleaseNote(repoName, r)]
  {
  }

  lemma AnnounceOneTag(repoName: string, t: Tag)
    ensures AnnounceTags(repoName, [t]) == [TagNote(repoName, t)]
  {
  }

  /** Some stored release of the repository was made from a tag of this name. */
  predicate CoveredByRelease(tagName: string, stored: seq<ReleaseSummary>): (b: bool)
    ensures b <==> exists i :: 0 <= i < |stored| && stored[i].tagName == tagName
  {
    exists r :: r in stored && r.tagName == tagName
  }

  /** The new tags that no stored release covers, in fetch order. */
  function UncoveredTags(newTags: seq<Tag>, stored: seq<ReleaseSummary>): (shown: seq<Tag>)
    ensures IsSubseq(shown, newTags)
    ensures forall t {:trigger t in shown} :: t in shown <==> t in newTags && !CoveredByRelease(t.name, stored)
    ensures forall t: Tag {:trigger multiset(shown)[t]} :: !CoveredByRelease(t.name, stored) ==>
              multiset(shown)[t] == multiset(newTags)[t]
  {
    Filter(newTags, (t: Tag) => !CoveredByRelease(t.name, stored))
  }

  lemma UncoveredTagsSnoc(ts: seq<Tag>, t: Tag, stored: seq<ReleaseSummary>)
    ensures UncoveredTags(ts + [t], stored) ==
      if CoveredByRelease(t.name, stored) then UncoveredTags(ts, stored) else UncoveredTags(ts, stored) + [t]
  {
    assert (ts + [t])[..|ts|] == ts;
  }

  /** One more new tag: announced exactly when no stored release covers it. */
  lemma AnnounceUncoveredSnoc(repoName: string, ts: seq<Tag>, t: Tag, stored: seq<ReleaseSummary>)
    ensures AnnounceTags(repoName, UncoveredTags(ts + [t], stored)) ==
      if CoveredByRelease(t.name, stored) then AnnounceTags(repoName, UncoveredTags(ts, stored))
      else AnnounceTags(repoName, UncoveredTags(ts, stored)) + [TagNote(repoName, t)]
  {
    UncoveredTagsSnoc(ts, t, stored);
    if !CoveredByRelease(t.name, stored) {
      AnnounceTagsSnoc(repoName, UncoveredTags(ts, stored), t);
    }
  }

  /**
    Releases part of one repository: announce the new releases, then
    overwrite the repository's release entry if the fetched list is non-empty.
   */
  function ReleasePhase(s: Snapshot, repoName: string, rels: seq<Release>): (r: Step)
    ensures r.snap.repos == s.repos && r.snap.tags == s.tags
    ensures r.snap.releases.Keys == s.releases.Keys + (if rels == [] then {} else {repoName})
    ensures |r.notes| <= |rels|
    ensures forall n :: n in r.notes ==> n.ReleaseNote? && n.repoName == repoName
  {
    var found := NewReleases(repoName, rels, s);
    var s' := if rels != [] then s.(releases := s.releases[repoName := ReleaseSummaries(rels)]) else s;
    Step(s', AnnounceReleases(repoName, found))
  }

  /**
    Tags part of one repository: announce the new tags that no release stored
    for the repository (by now including this pass's) covers, then overwrite
    the repository's tag entry if the fetched list is non-empty.
   */
  function TagPhase(s: Snapshot, repoName: string, tags: seq<Tag>): (r: Step)
    ensures r.snap.repos == s.repos && r.snap.releases == s.releases
    ensures r.snap.tags.Keys == s.tags.Keys + (if tags == [] then {} else {repoName})
    ensures |r.notes| <= |tags|
    ensures forall n :: n in r.notes ==> n.TagNote? && n.repoName == repoName
  {
    var found := NewTags(repoName, tags, s);
    var shown := UncoveredTags(found, StoredReleases(s, repoName));
    var s' := if tags != [] then s.(tags := s.tags[repoName := TagSummaries(tags)]) else s;
    Step(s', AnnounceTags(repoName, shown))
  }

  /** The body of the `try` for one repository, with its failure points. */
  function RepoStep(s: Snapshot, repoName: string, o: FetchOutcome): (r: Step)
    ensures r.snap.repos == s.repos
    ensures r.snap.releases.Keys <= s.releases.Keys + {repoName} && r.snap.tags.Keys <= s.tags.Keys + {repoName}
    ensures forall n :: n in r.notes ==> !n.RepoNote? && n.repoName == repoName
  {
    match o
    case ReleasesFailed => Step(s, [])
    case TagsFailed(rels) => ReleasePhase(s, repoName, rels)
    case Fetched(rels, tags) =>
      var a := ReleasePhase(s, repoName, rels);
      var b := TagPhase(a.snap, repoName, tags);
      Step(b.snap, a.notes + b.notes)
  }

  /** The `for repo in repos` loop: each repository in listing order. */
  function Fold(s: Snapshot, repos: seq<Repo>, outcomes: seq<FetchOutcome>): (r: Step)
    requires |outcomes| == |repos|
    ensures r.snap.repos == s.repos
    decreases |repos|
  {
    if repos == [] then Step(s, [])
    else
      var n := |repos| - 1;
      var before := Fold(s, repos[..n], outcomes[..n]);
      var last := RepoStep(before.snap, repos[n].name, outcomes[n]);
      Step(last.snap, before.notes + last.notes)
  }

  /**
    One pass over a successful repository listing: announce the new
    repositories, replace the stored listing, then process every repository.
   */
  function Pass(s: Snapshot, repos: seq<Repo>, outcomes: seq<FetchOutcome>): (r: Step)
    requires |outcomes| == |repos|
    ensures r.snap.repos == repos
    ensures AnnounceRepos(NewRepos(repos, s)) <= r.notes
  {
    var announced := AnnounceRepos(NewRepos(repos, s));
    var rest := Fold(s.(repos := repos), repos, outcomes);
    Step(rest.snap, announced + rest.notes)
  }
}
