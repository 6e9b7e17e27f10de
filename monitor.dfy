/**
  The monitoring run of `main`: load the snapshot, announce new
  repositories, replace the stored listing, process each repository inside
  its own `try`, and save the snapshot once at the end. Fetch results are
  given as inputs; the notifier is the `sent` log.
 */
module Monitor {

  import opened Wrappers
  import opened Seqs
  import opened State
  import opened Reconcile

  /** What `load_state` yields for the state file's contents (absent or unreadable: `None`). */
  function Loaded(file: Option<Snapshot>): (s: Snapshot)
    ensures file.Some? ==> s == file.value
    ensures file.None? ==> s.repos == [] && s.releases == map[] && s.tags == map[]
  {
    match file
    case Some(s) => s
    case None => EmptySnapshot()
  }

  class Watcher {
    /** The state file on disk; `None` when it is missing or cannot be parsed. */
    var stateFile: Option<Snapshot>
    /** The snapshot being reconciled in memory during a run. */
    var state: Snapshot
    /** Every notification sent so far, oldest first. */
    var sent: seq<Notification>

    constructor (file: Option<Snapshot>)
      ensures stateFile == file && state == EmptySnapshot() && sent == []
    {
      stateFile := file;
      state := EmptySnapshot();
      sent := [];
    }

    /** `send_feishu_notification`, assumed to succeed. */
    method Notify(n: Notification)
      modifies this`sent
      ensures sent == old(sent) + [n]
    {
      sent := sent + [n];
    }

    /**
      Lines 217-227: announce the releases not yet stored for the repository,
      then overwrite its release entry if the fetched list is non-empty.
     */
    method ProcessReleases(repoName: string, releases: seq<Release>)
      modifies this`state, this`sent
      ensures state == ReleasePhase(old(state), repoName, releases).snap
      ensures sent == old(sent) + ReleasePhase(old(state), repoName, releases).notes
    {
      ghost var sent0 := sent;
      var newReleases := NewReleases(repoName, releases, state);
      for i := 0 to |newReleases|
        invariant state == old(state)
        invariant sent == sent0 + AnnounceReleases(repoName, newReleases[..i])
      {
        Notify(ReleaseNote(repoName, newReleases[i]));
        assert newReleases[..i + 1] == newReleases[..i] + [newReleases[i]];
        AnnounceReleasesSnoc(repoName, newReleases[..i], newReleases[i]);
        AppendAssoc(sent0, AnnounceReleases(repoName, newReleases[..i]), [ReleaseNote(repoName, newReleases[i])]);
      }
      assert newReleases[..|newReleases|] == newReleases;
      if releases != [] {
        state := state.(releases := state.releases[repoName := ReleaseSummaries(releases)]);
      }
    }

    /**
      Lines 234-238: announce, in order, the new tags that no release stored
      for the repository covers.
     */
    method AnnounceUncoveredTags(repoName: string, newTags: seq<Tag>)
      modifies this`sent
      ensures sent == old(sent) + AnnounceTags(repoName, UncoveredTags(newTags, StoredReleases(state, repoName)))
    {
      var stored := StoredReleases(state, repoName);
      for i := 0 to |newTags|
        invariant sent == old(sent) + AnnounceTags(repoName, UncoveredTags(newTags[..i], stored))
      {
        ghost var before := AnnounceTags(repoName, UncoveredTags(newTags[..i], stored));
        assert newTags[..i + 1] == newTags[..i] + [newTags[i]];
        AnnounceUncoveredSnoc(repoName, newTags[..i], newTags[i], stored);
        if !CoveredByRelease(newTags[i].name, stored) {
          Notify(TagNote(repoName, newTags[i]));
          AppendAssoc(old(sent), before, [TagNote(repoName, newTags[i])]);
        }
      }
      assert newTags[..|newTags|] == newTags;
    }

    /**
      Lines 230-242: announce the tags not yet stored for the repository that
      no stored release covers, then overwrite its tag entry if the fetched
      list is non-empty.
     */
    method ProcessTags(repoName: string, tags: seq<Tag>)
      modifies this`state, this`sent
      ensures state == TagPhase(old(state), repoName, tags).snap
      ensures sent == old(sent) + TagPhase(old(state), repoName, tags).notes
    {
      var newTags := NewTags(repoName, tags, state);
      AnnounceUncoveredTags(repoName, newTags);
      if tags != [] {
        state := state.(tags := state.tags[repoName := TagSummaries(tags)]);
      }
    }

    /** The `try` block for one repository; a failed fetch ends it where it happens. */
    method ProcessRepo(repoName: string, outcome: FetchOutcome)
      modifies this`state, this`sent
      ensures state == RepoStep(old(state), repoName, outcome).snap
      ensures sent == old(sent) + RepoStep(old(state), repoName, outcome).notes
    {
      match outcome
      case ReleasesFailed =>
      case TagsFailed(releases) =>
        ProcessReleases(repoName, releases);
      case Fetched(releases, tags) =>
        ghost var sent0 := sent;
        ghost var a := ReleasePhase(state, repoName, releases);
        ProcessReleases(repoName, releases);
        ghost var b := TagPhase(state, repoName, tags);
        ProcessTags(repoName, tags);
        AppendAssoc(sent0, a.notes, b.notes);
    }

    /** Lines 201-205: one notification per repository the snapshot does not know. */
    method AnnounceNewRepos(repos: seq<Repo>)
      modifies this`sent
      ensures sent == old(sent) + AnnounceRepos(NewRepos(repos, state))
    {
      var newRepos := NewRepos(repos, state);
      for i := 0 to |newRepos|
        invariant sent == old(sent) + AnnounceRepos(newRepos[..i])
      {
        Notify(RepoNote(newRepos[i]));
        assert newRepos[..i + 1] == newRepos[..i] + [newRepos[i]];
        AnnounceReposSnoc(newRepos[..i], newRepos[i]);
        AppendAssoc(old(sent), AnnounceRepos(newRepos[..i]), [RepoNote(newRepos[i])]);
      }
      assert newRepos[..|newRepos|] == newRepos;
    }

    /** Lines 211-245: the `for repo in repos` loop, each repository in listing order. */
    method ProcessAll(repos: seq<Repo>, outcomes: seq<FetchOutcome>)
      requires |outcomes| == |repos|
      modifies this`state, this`sent
      ensures state == Fold(old(state), repos, outcomes).snap
      ensures sent == old(sent) + Fold(old(state), repos, outcomes).notes
    {
      for i := 0 to |repos|
        invariant state == Fold(old(state), repos[..i], outcomes[..i]).snap
        invariant sent == old(sent) + Fold(old(state), repos[..i], outcomes[..i]).notes
      {
        assert repos[..i + 1][..i] == repos[..i] && outcomes[..i + 1][..i] == outcomes[..i];
        ghost var before := Fold(old(state), repos[..i], outcomes[..i]);
        ghost var step := RepoStep(state, repos[i].name, outcomes[i]);
        ProcessRepo(repos[i].name, outcomes[i]);
        AppendAssoc(old(sent), before.notes, step.notes);
      }
      assert repos[..|repos|] == repos && outcomes[..|outcomes|] == outcomes;
    }

    /**
      One run of `main`. `listing` is what `fetch_repos` returned (`None`
      when it raised, which ends the run before anything is sent or saved);
      `outcomes[i]` is what fetching the i-th listed repository produced.
     */
    method RunPass(listing: Option<seq<Repo>>, outcomes: seq<FetchOutcome>)
      requires listing.Some? ==> |outcomes| == |listing.value|
      modifies this
      ensures listing.None? ==> stateFile == old(stateFile) && state == Loaded(old(stateFile)) && sent == old(sent)
      ensures listing.Some? ==>
                var p := Pass(Loaded(old(stateFile)), listing.value, outcomes);
                stateFile == Some(p.snap) && state == p.snap && sent == old(sent) + p.notes
    {
      state := Loaded(stateFile);
      if listing.None? {
        return;
      }
      var repos := listing.value;
      ghost var sent0 := sent;
      AnnounceNewRepos(repos);
      state := state.(repos := repos);
      ghost var listed := state;
      ProcessAll(repos, outcomes);
      AppendAssoc(sent0, AnnounceRepos(NewRepos(repos, Loaded(old(stateFile)))), Fold(listed, repos, outcomes).notes);
      stateFile := Some(state);
    }
  }
}
