/**
  What the detectors and the reconciliation pass guarantee: idempotence,
  tag/release de-duplication, overwrite-only-when-non-empty, failure
  isolation, and that keys are never removed from the snapshot.
 */
module Properties {

  import opened Seqs
  import opened State
  import opened Reconcile

  // ---------------------------------------------------------------------
  // Detectors
  // ---------------------------------------------------------------------

  /** Once the stored listing is the current one, no repository is new. */
  lemma NewReposIdempotent(current: seq<Repo>, s: Snapshot)
    ensures NewRepos(current, s.(repos := current)) == []
  {
    forall r | r in current ensures r.name in RepoNames(current) {}
    FilterNone(current, (r: Repo) => r.name !in RepoNames(current));
  }

  /** Repositories are keyed by name alone: ids play no part in detection. */
  lemma NewReposByName(current: seq<Repo>, s: Snapshot, t: Snapshot)
    requires RepoNames(s.repos) == RepoNames(t.repos)
    ensures NewRepos(current, s) == NewRepos(current, t)
  {
    var known := RepoNames(s.repos);
    FilterUnique(NewRepos(current, s), current, (r: Repo) => r.name !in known);
    FilterUnique(NewRepos(current, t), current, (r: Repo) => r.name !in known);
  }

  /** Once a non-empty fetched release list is stored, none of it is new. */
  lemma NewReleasesIdempotent(repoName: string, rels: seq<Release>, s: Snapshot)
    ensures NewReleases(repoName, rels, s.(releases := s.releases[repoName := ReleaseSummaries(rels)])) == []
  {
    var s' := s.(releases := s.releases[repoName := ReleaseSummaries(rels)]);
    FilterNone(rels, (r: Release) => r.id !in ReleaseIds(StoredReleases(s', repoName)));
  }

  /** Once a non-empty fetched tag list is stored, none of it is new. */
  lemma NewTagsIdempotent(repoName: string, tags: seq<Tag>, s: Snapshot)
    ensures NewTags(repoName, tags, s.(tags := s.tags[repoName := TagSummaries(tags)])) == []
  {
    var s' := s.(tags := s.tags[repoName := TagSummaries(tags)]);
    FilterNone(tags, (t: Tag) => t.name !in TagNames(StoredTags(s', repoName)));
  }

  /** A repository with no release entry has every fetched release new. */
  lemma NewReleasesMissingKey(repoName: string, current: seq<Release>, s: Snapshot)
    requires repoName !in s.releases
    ensures NewReleases(repoName, current, s) == current
  {
    FilterAll(current, (r: Release) => r.id !in ReleaseIds(StoredReleases(s, repoName)));
  }

  /** A repository with no tag entry has every fetched tag new. */
  lemma NewTagsMissingKey(repoName: string, current: seq<Tag>, s: Snapshot)
    requires repoName !in s.tags
    ensures NewTags(repoName, current, s) == current
  {
    FilterAll(current, (t: Tag) => t.name !in TagNames(StoredTags(s, repoName)));
  }

  // ---------------------------------------------------------------------
  // One repository
  // ---------------------------------------------------------------------

  /** `m1` and `m2` hold the same entry, or none, under key `k`. */
  predicate AgreeAt<V(==)>(m1: map<string, V>, m2: map<string, V>, k: string)
  {
    (k in m1 <==> k in m2) && (k in m1 ==> m1[k] == m2[k])
  }

  /** The stored release entry already is what the fetched list would write. */
  predicate ReleasesSettled(s: Snapshot, repoName: string, rels: seq<Release>)
  {
    rels == [] || (repoName in s.releases && s.releases[repoName] == ReleaseSummaries(rels))
  }

  /** The stored tag entry already is what the fetched list would write. */
  predicate TagsSettled(s: Snapshot, repoName: string, tags: seq<Tag>)
  {
    tags == [] || (repoName in s.tags && s.tags[repoName] == TagSummaries(tags))
  }

  /** Processing `o` for the repository would change no entry of the snapshot. */
  predicate Settled(s: Snapshot, repoName: string, o: FetchOutcome)
  {
    match o
    case ReleasesFailed => true
    case TagsFailed(rels) => ReleasesSettled(s, repoName, rels)
    case Fetched(rels, tags) => ReleasesSettled(s, repoName, rels) && TagsSettled(s, repoName, tags)
  }

  /** A settled repository is processed without a notification or a change. */
  lemma {:induction false} SettledIsQuiet(s: Snapshot, repoName: string, o: FetchOutcome)
    requires Settled(s, repoName, o)
    ensures RepoStep(s, repoName, o) == Step(s, [])
  {
    match o
    case ReleasesFailed =>
    case TagsFailed(rels) =>
      ReleasePhaseQuiet(s, repoName, rels);
    case Fetched(rels, tags) =>
      ReleasePhaseQuiet(s, repoName, rels);
      TagPhaseQuiet(s, repoName, tags);
  }

  lemma ReleasePhaseQuiet(s: Snapshot, repoName: string, rels: seq<Release>)
    requires ReleasesSettled(s, repoName, rels)
    ensures ReleasePhase(s, repoName, rels) == Step(s, [])
  {
    if rels != [] {
      assert s.(releases := s.releases[repoName := ReleaseSummaries(rels)]) == s;
      NewReleasesIdempotent(repoName, rels, s);
    }
  }

  lemma TagPhaseQuiet(s: Snapshot, repoName: string, tags: seq<Tag>)
    requires TagsSettled(s, repoName, tags)
    ensures TagPhase(s, repoName, tags) == Step(s, [])
  {
    if tags != [] {
      assert s.(tags := s.tags[repoName := TagSummaries(tags)]) == s;
      NewTagsIdempotent(repoName, tags, s);
    }
  }

  /** After a repository is processed, processing it again is quiet. */
  lemma RepoStepSettles(s: Snapshot, repoName: string, o: FetchOutcome)
    ensures Settled(RepoStep(s, repoName, o).snap, repoName, o)
  {
  }

  /** Processing one repository repeats nothing and changes nothing. */
  lemma RepoStepIdempotent(s: Snapshot, repoName: string, o: FetchOutcome)
    ensures var a := RepoStep(s, repoName, o); RepoStep(a.snap, repoName, o) == Step(a.snap, [])
  {
    RepoStepSettles(s, repoName, o);
    SettledIsQuiet(RepoStep(s, repoName, o).snap, repoName, o);
  }

  /**
    Processing one repository keeps the listing, removes no key, and leaves
    every other repository's entries as they were.
   */
  lemma RepoStepLocal(s: Snapshot, repoName: string, o: FetchOutcome)
    ensures var r := RepoStep(s, repoName, o).snap;
      && r.repos == s.repos
      && s.releases.Keys <= r.releases.Keys
      && s.tags.Keys <= r.tags.Keys
      && forall k :: k != repoName ==> AgreeAt(r.releases, s.releases, k) && AgreeAt(r.tags, s.tags, k)
  {
    RepoStepKeepsKeys(s, repoName, o);
    RepoStepOtherReleases(s, repoName, o);
    RepoStepOtherTags(s, repoName, o);
  }

  lemma RepoStepKeepsKeys(s: Snapshot, repoName: string, o: FetchOutcome)
    ensures var r := RepoStep(s, repoName, o).snap;
      r.repos == s.repos && s.releases.Keys <= r.releases.Keys && s.tags.Keys <= r.tags.Keys
  {
  }

  lemma RepoStepOtherReleases(s: Snapshot, repoName: string, o: FetchOutcome)
    ensures forall k :: k != repoName ==> AgreeAt(RepoStep(s, repoName, o).snap.releases, s.releases, k)
  {
  }

  lemma RepoStepOtherTags(s: Snapshot, repoName: string, o: FetchOutcome)
    ensures forall k :: k != repoName ==> AgreeAt(RepoStep(s, repoName, o).snap.tags, s.tags, k)
  {
  }

  /**
    A release entry is overwritten only by a non-empty fetched list, a tag
    entry only by a non-empty fetched tag list; an empty or failed fetch
    leaves the entry, or its absence, as it was.
   */
  lemma EntriesOverwrittenOnlyWhenNonEmpty(s: Snapshot, repoName: string, o: FetchOutcome)
    ensures var r := RepoStep(s, repoName, o).snap;
      && (o.ReleasesFailed? || o.releases == [] ==> r.releases == s.releases)
      && (!o.ReleasesFailed? && o.releases != [] ==>
            repoName in r.releases && r.releases[repoName] == ReleaseSummaries(o.releases))
      && (!o.Fetched? || o.tags == [] ==> r.tags == s.tags)
      && (o.Fetched? && o.tags != [] ==> repoName in r.tags && r.tags[repoName] == TagSummaries(o.tags))
  {
  }

  /** A release stored for the repository was made from this tag. */
  lemma CoveredBySummaries(tagName: string, rels: seq<Release>)
    ensures CoveredByRelease(tagName, ReleaseSummaries(rels)) <==> exists r :: r in rels && r.tagName == tagName
  {
    var sums := ReleaseSummaries(rels);
    if CoveredByRelease(tagName, sums) {
      var k :| k in sums && k.tagName == tagName;
      var i :| 0 <= i < |sums| && sums[i] == k;
      assert rels[i] in rels;
    }
    if exists r :: r in rels && r.tagName == tagName {
      var r :| r in rels && r.tagName == tagName;
      var i :| 0 <= i < |rels| && rels[i] == r;
      assert sums[i] in sums;
    }
  }

  lemma AnnouncedTags(repoName: string, ts: seq<Tag>, n: Notification)
    ensures n in AnnounceTags(repoName, ts) <==> n.TagNote? && n.repoName == repoName && n.tag in ts
  {
    if n.TagNote? && n.repoName == repoName && n.tag in ts {
      var i :| 0 <= i < |ts| && ts[i] == n.tag;
      assert AnnounceTags(repoName, ts)[i] == n;
    }
  }

  lemma AnnouncedReleases(repoName: string, rs: seq<Release>, n: Notification)
    ensures n in AnnounceReleases(repoName, rs) <==> n.ReleaseNote? && n.repoName == repoName && n.release in rs
  {
    if n.ReleaseNote? && n.repoName == repoName && n.release in rs {
      var i :| 0 <= i < |rs| && rs[i] == n.release;
      assert AnnounceReleases(repoName, rs)[i] == n;
    }
  }

  /**
    With both fetches successful, a tag is announced exactly when it is
    fetched, its name is not stored yet, and no release covers it: when
    releases were fetched, none of them has that tag name; when the release
    list came back empty, no release stored earlier has it.
   */
  lemma TagAnnouncedIff(s: Snapshot, repoName: string, rels: seq<Release>, tags: seq<Tag>, t: Tag)
    ensures TagNote(repoName, t) in RepoStep(s, repoName, Fetched(rels, tags)).notes <==>
      && t in tags
      && t.name !in TagNames(StoredTags(s, repoName))
      && (if rels != [] then forall r :: r in rels ==> r.tagName != t.name
          else !CoveredByRelease(t.name, StoredReleases(s, repoName)))
  {
    var a := ReleasePhase(s, repoName, rels);
    var found := NewTags(repoName, tags, a.snap);
    var shown := UncoveredTags(found, StoredReleases(a.snap, repoName));
    AnnouncedTags(repoName, shown, TagNote(repoName, t));
    AnnouncedReleases(repoName, NewReleases(repoName, rels, s), TagNote(repoName, t));
    CoveredBySummaries(t.name, rels);
  }

  /**
    A release is announced exactly when its fetch succeeded, it is among the
    fetched releases, and its id is not among the releases stored for the
    repository, whatever happens to the tags afterwards.
   */
  lemma ReleaseAnnouncedIff(s: Snapshot, repoName: string, o: FetchOutcome, rel: Release)
    ensures ReleaseNote(repoName, rel) in RepoStep(s, repoName, o).notes <==>
      && !o.ReleasesFailed?
      && rel in o.releases
      && rel.id !in ReleaseIds(StoredReleases(s, repoName))
  {
    if !o.ReleasesFailed? {
      AnnouncedReleases(repoName, NewReleases(repoName, o.releases, s), ReleaseNote(repoName, rel));
      if o.Fetched? {
        assert ReleaseNote(repoName, rel) !in TagPhase(ReleasePhase(s, repoName, o.releases).snap, repoName, o.tags).notes;
      }
    }
  }

  /**
    A release and a tag of the same name, fetched in the same pass, give one
    release notification and no tag notification, whatever their order.
   */
  lemma ReleaseSuppressesItsTag(s: Snapshot, repoName: string, rels: seq<Release>, tags: seq<Tag>, r: Release, t: Tag)
    requires r in rels && t in tags && r.tagName == t.name
    requires r.id !in ReleaseIds(StoredReleases(s, repoName))
    ensures ReleaseNote(repoName, r) in RepoStep(s, repoName, Fetched(rels, tags)).notes
    ensures TagNote(repoName, t) !in RepoStep(s, repoName, Fetched(rels, tags)).notes
  {
    TagAnnouncedIff(s, repoName, rels, tags, t);
    AnnouncedReleases(repoName, NewReleases(repoName, rels, s), ReleaseNote(repoName, r));
  }

  /**
    When `fetch_tags` fails, the release work done before it stays: the same
    release entry and release notifications as a fully successful fetch, and
    the tag entries untouched.
   */
  lemma TagFailureKeepsReleaseWork(s: Snapshot, repoName: string, rels: seq<Release>, tags: seq<Tag>)
    ensures var failed := RepoStep(s, repoName, TagsFailed(rels));
      var ok := RepoStep(s, repoName, Fetched(rels, tags));
      && failed.snap.releases == ok.snap.releases
      && failed.snap.tags == s.tags
      && ok.notes == failed.notes + TagPhase(failed.snap, repoName, tags).notes
  {
    var a := ReleasePhase(s, repoName, rels);
    var b := TagPhase(a.snap, repoName, tags);
    assert RepoStep(s, repoName, TagsFailed(rels)) == a;
    assert RepoStep(s, repoName, Fetched(rels, tags)) == Step(b.snap, a.notes + b.notes);
  }

  // ---------------------------------------------------------------------
  // The whole loop and the whole pass
  // ---------------------------------------------------------------------

  /** The loop's last iteration: the step for the last repository follows the rest. */
  lemma FoldSnoc(s: Snapshot, repos: seq<Repo>, outcomes: seq<FetchOutcome>, r: Repo, o: FetchOutcome)
    requires |outcomes| == |repos|
    ensures var before := Fold(s, repos, outcomes);
      var last := RepoStep(before.snap, r.name, o);
      Fold(s, repos + [r], outcomes + [o]) == Step(last.snap, before.notes + last.notes)
  {
    assert (repos + [r])[..|repos|] == repos;
    assert (outcomes + [o])[..|repos|] == outcomes;
  }

  /** The loop over a concatenated listing runs the two parts one after the other. */
  lemma {:induction false} FoldAppend(s: Snapshot, a: seq<Repo>, b: seq<Repo>, oa: seq<FetchOutcome>, ob: seq<FetchOutcome>)
    requires |oa| == |a| && |ob| == |b|
    ensures var first := Fold(s, a, oa);
      var second := Fold(first.snap, b, ob);
      Fold(s, a + b, oa + ob) == Step(second.snap, first.notes + second.notes)
    decreases |b|
  {
    var first := Fold(s, a, oa);
    if b == [] {
      assert a + b == a && oa + ob == oa;
      assert first.notes + [] == first.notes;
    } else {
      var n := |b| - 1;
      var b0, ob0 := b[..n], ob[..n];
      SplitLast(a, b);
      SplitLast(oa, ob);
      FoldAppend(s, a, b0, oa, ob0);
      var mid := Fold(first.snap, b0, ob0);
      var last := RepoStep(mid.snap, b[n].name, ob[n]);
      FoldSnoc(s, a + b0, oa + ob0, b[n], ob[n]);
      FoldSnoc(first.snap, b0, ob0, b[n], ob[n]);
      AppendAssoc(first.notes, mid.notes, last.notes);
    }
  }

  /**
    A repository whose release fetch fails leaves the loop exactly as if it
    had not been listed: the repositories before and after it are processed
    and notified as usual.
   */
  lemma FailedRepoIsSkipped(s: Snapshot, a: seq<Repo>, x: Repo, b: seq<Repo>, oa: seq<FetchOutcome>, ob: seq<FetchOutcome>)
    requires |oa| == |a| && |ob| == |b|
    ensures Fold(s, a + [x] + b, oa + [ReleasesFailed] + ob) == Fold(s, a + b, oa + ob)
  {
    FoldAppend(s, a + [x], b, oa + [ReleasesFailed], ob);
    var first := Fold(s, a, oa);
    assert (a + [x])[..|a|] == a && (oa + [ReleasesFailed])[..|a|] == oa;
    assert Fold(s, a + [x], oa + [ReleasesFailed]) == Step(first.snap, first.notes + []);
    assert first.notes + [] == first.notes;
    FoldAppend(s, a, b, oa, ob);
  }

  /** The loop keeps the listing and removes no key. */
  lemma {:induction false} FoldKeepsKeys(s: Snapshot, repos: seq<Repo>, outcomes: seq<FetchOutcome>)
    requires |outcomes| == |repos|
    ensures var r := Fold(s, repos, outcomes).snap;
      r.repos == s.repos && s.releases.Keys <= r.releases.Keys && s.tags.Keys <= r.tags.Keys
    decreases |repos|
  {
    if repos != [] {
      var n := |repos| - 1;
      FoldKeepsKeys(s, repos[..n], outcomes[..n]);
      RepoStepLocal(Fold(s, repos[..n], outcomes[..n]).snap, repos[n].name, outcomes[n]);
    }
  }

  /** A repository's entries are touched only by its own step. */
  lemma {:induction false} FoldLeavesOthers(s: Snapshot, repos: seq<Repo>, outcomes: seq<FetchOutcome>, k: string)
    requires |outcomes| == |repos|
    requires forall i :: 0 <= i < |repos| ==> repos[i].name != k
    ensures var r := Fold(s, repos, outcomes).snap;
      AgreeAt(r.releases, s.releases, k) && AgreeAt(r.tags, s.tags, k)
    decreases |repos|
  {
    if repos != [] {
      var n := |repos| - 1;
      FoldLeavesOthers(s, repos[..n], outcomes[..n], k);
      RepoStepLocal(Fold(s, repos[..n], outcomes[..n]).snap, repos[n].name, outcomes[n]);
    }
  }

  predicate DistinctNames(repos: seq<Repo>)
  {
    forall i, j :: 0 <= i < j < |repos| ==> repos[i].name != repos[j].name
  }

  /** With distinct names, after the loop every repository is settled. */
  lemma {:induction false} FoldSettles(s: Snapshot, repos: seq<Repo>, outcomes: seq<FetchOutcome>)
    requires |outcomes| == |repos| && DistinctNames(repos)
    ensures forall i :: 0 <= i < |repos| ==> Settled(Fold(s, repos, outcomes).snap, repos[i].name, outcomes[i])
    decreases |repos|
  {
    if repos != [] {
      var n := |repos| - 1;
      var before := Fold(s, repos[..n], outcomes[..n]).snap;
      var after := Fold(s, repos, outcomes).snap;
      FoldSettles(s, repos[..n], outcomes[..n]);
      RepoStepLocal(before, repos[n].name, outcomes[n]);
      RepoStepSettles(before, repos[n].name, outcomes[n]);
      forall i | 0 <= i < n ensures Settled(after, repos[i].name, outcomes[i]) {
        assert Settled(before, repos[..n][i].name, outcomes[..n][i]);
        assert repos[i].name != repos[n].name;
      }
    }
  }

  /** A loop over settled repositories is quiet. */
  lemma {:induction false} FoldQuiet(s: Snapshot, repos: seq<Repo>, outcomes: seq<FetchOutcome>)
    requires |outcomes| == |repos|
    requires forall i :: 0 <= i < |repos| ==> Settled(s, repos[i].name, outcomes[i])
    ensures Fold(s, repos, outcomes) == Step(s, [])
    decreases |repos|
  {
    if repos != [] {
      var n := |repos| - 1;
      FoldQuiet(s, repos[..n], outcomes[..n]);
      SettledIsQuiet(s, repos[n].name, outcomes[n]);
    }
  }

  /**
    Running the pass a second time on the same fetch results, from the
    snapshot the first pass saved, sends nothing and saves the same snapshot
    (repository names are unique within an organization).
   */
  lemma PassIdempotent(s: Snapshot, repos: seq<Repo>, outcomes: seq<FetchOutcome>)
    requires |outcomes| == |repos| && DistinctNames(repos)
    ensures var p := Pass(s, repos, outcomes); Pass(p.snap, repos, outcomes) == Step(p.snap, [])
  {
    var listed := s.(repos := repos);
    var after := Fold(listed, repos, outcomes).snap;
    FoldKeepsKeys(listed, repos, outcomes);
    assert after.(repos := repos) == after;
    NewReposIdempotent(repos, after);
    FoldSettles(listed, repos, outcomes);
    FoldQuiet(after, repos, outcomes);
  }

  /**
    A pass replaces the stored listing wholesale but never removes a
    release or tag entry, even for repositories no longer listed.
   */
  lemma PassKeepsEntries(s: Snapshot, repos: seq<Repo>, outcomes: seq<FetchOutcome>)
    requires |outcomes| == |repos|
    ensures var r := Pass(s, repos, outcomes).snap;
      r.repos == repos && s.releases.Keys <= r.releases.Keys && s.tags.Keys <= r.tags.Keys
  {
    FoldKeepsKeys(s.(repos := repos), repos, outcomes);
  }

  /** The loop over repositories sends only release and tag notifications. */
  lemma {:induction false} FoldSendsNoRepoNote(s: Snapshot, repos: seq<Repo>, outcomes: seq<FetchOutcome>)
    requires |outcomes| == |repos|
    ensures forall n :: n in Fold(s, repos, outcomes).notes ==> !n.RepoNote?
    decreases |repos|
  {
    if repos != [] {
      var k := |repos| - 1;
      var before := Fold(s, repos[..k], outcomes[..k]);
      FoldSendsNoRepoNote(s, repos[..k], outcomes[..k]);
      var step := RepoStep(before.snap, repos[k].name, outcomes[k]);
      forall n | n in step.notes ensures !n.RepoNote? {
        match outcomes[k]
        case ReleasesFailed =>
        case TagsFailed(rels) =>
          AnnouncedReleases(repos[k].name, NewReleases(repos[k].name, rels, before.snap), n);
        case Fetched(rels, tags) =>
          var a := ReleasePhase(before.snap, repos[k].name, rels);
          AnnouncedReleases(repos[k].name, NewReleases(repos[k].name, rels, before.snap), n);
          AnnouncedTags(repos[k].name,
            UncoveredTags(NewTags(repos[k].name, tags, a.snap), StoredReleases(a.snap, repos[k].name)), n);
      }
    }
  }

  /**
    A pass first announces every new repository, in listing order, and
    only then sends release and tag notifications.
   */
  lemma PassAnnouncesReposFirst(s: Snapshot, repos: seq<Repo>, outcomes: seq<FetchOutcome>)
    requires |outcomes| == |repos|
    ensures var notes := Pass(s, repos, outcomes).notes;
      var k := |NewRepos(repos, s)|;
      && k <= |notes|
      && notes[..k] == AnnounceRepos(NewRepos(repos, s))
      && forall i :: k <= i < |notes| ==> !notes[i].RepoNote?
  {
    var announced := AnnounceRepos(NewRepos(repos, s));
    var rest := Fold(s.(repos := repos), repos, outcomes);
    assert Pass(s, repos, outcomes).notes == announced + rest.notes;
    FoldSendsNoRepoNote(s.(repos := repos), repos, outcomes);
    ConcatParts(announced, rest.notes);
  }

  /** On the first run (empty snapshot) every listed repository is announced. */
  lemma FirstPassAnnouncesAll(repos: seq<Repo>, outcomes: seq<FetchOutcome>)
    requires |outcomes| == |repos|
    ensures var notes := Pass(EmptySnapshot(), repos, outcomes).notes;
      |repos| <= |notes| && notes[..|repos|] == AnnounceRepos(repos)
  {
    FilterAll(repos, (r: Repo) => r.name !in RepoNames(EmptySnapshot().repos));
    PassAnnouncesReposFirst(EmptySnapshot(), repos, outcomes);
  }

  // ---------------------------------------------------------------------
  // A repository seen for the first time, with a release and a tag
  // ---------------------------------------------------------------------

  /** A pass over a one-repository listing is that repository's step after the announcement. */
  lemma PassOne(s: Snapshot, x: Repo, o: FetchOutcome)
    ensures var st := RepoStep(s.(repos := [x]), x.name, o);
      Pass(s, [x], [o]) == Step(st.snap, AnnounceRepos(NewRepos([x], s)) + st.notes)
  {
    assert [x][..0] == [] && [o][..0] == [];
    var st := RepoStep(s.(repos := [x]), x.name, o);
    assert Fold(s.(repos := [x]), [x], [o]) == Step(st.snap, [] + st.notes);
    assert [] + st.notes == st.notes;
  }

  lemma UnknownRepoIsNew(s: Snapshot, x: Repo)
    requires x.name !in RepoNames(s.repos)
    ensures AnnounceRepos(NewRepos([x], s)) == [RepoNote(x)]
  {
    FilterAll([x], (r: Repo) => r.name !in RepoNames(s.repos));
  }

  /** A single release of a repository with no release entry is announced and stored. */
  lemma FirstRelease(s: Snapshot, repoName: string, rel: Release)
    requires repoName !in s.releases
    ensures ReleasePhase(s, repoName, [rel]) ==
      Step(s.(releases := s.releases[repoName := [ReleaseSummary(rel.id, rel.tagName)]]), [ReleaseNote(repoName, rel)])
  {
    NewReleasesMissingKey(repoName, [rel], s);
    OneReleaseSummary(rel);
    AnnounceOneRelease(repoName, rel);
  }

  /** A single new tag whose release is stored is stored but not announced. */
  lemma CoveredFirstTag(s: Snapshot, repoName: string, tag: Tag, rel: Release)
    requires repoName !in s.tags && rel.tagName == tag.name
    requires repoName in s.releases && s.releases[repoName] == [ReleaseSummary(rel.id, rel.tagName)]
    ensures TagPhase(s, repoName, [tag]) == Step(s.(tags := s.tags[repoName := [TagSummary(tag.name, tag.sha)]]), [])
  {
    NewTagsMissingKey(repoName, [tag], s);
    OneTagSummary(tag);
    assert CoveredByRelease(tag.name, StoredReleases(s, repoName)) by {
      assert StoredReleases(s, repoName)[0] == ReleaseSummary(rel.id, rel.tagName);
    }
    FilterNone([tag], (t: Tag) => !CoveredByRelease(t.name, StoredReleases(s, repoName)));
  }

  /** A single new tag of a repository with no release entry is announced and stored. */
  lemma UncoveredFirstTag(s: Snapshot, repoName: string, tag: Tag)
    requires repoName !in s.tags && repoName !in s.releases
    ensures TagPhase(s, repoName, [tag]) ==
      Step(s.(tags := s.tags[repoName := [TagSummary(tag.name, tag.sha)]]), [TagNote(repoName, tag)])
  {
    NewTagsMissingKey(repoName, [tag], s);
    OneTagSummary(tag);
    FilterAll([tag], (t: Tag) => !CoveredByRelease(t.name, StoredReleases(s, repoName)));
    AnnounceOneTag(repoName, tag);
  }

  /** The repository's step when its release and the release's tag are fetched together. */
  lemma TogetherStep(s: Snapshot, repoName: string, rel: Release, tag: Tag)
    requires repoName !in s.releases && repoName !in s.tags && rel.tagName == tag.name
    ensures RepoStep(s, repoName, Fetched([rel], [tag])) ==
      Step(s.(releases := s.releases[repoName := [ReleaseSummary(rel.id, rel.tagName)]],
              tags := s.tags[repoName := [TagSummary(tag.name, tag.sha)]]),
           [ReleaseNote(repoName, rel)])
  {
    FirstRelease(s, repoName, rel);
    CoveredFirstTag(s.(releases := s.releases[repoName := [ReleaseSummary(rel.id, rel.tagName)]]), repoName, tag, rel);
  }

  /**
    A repository seen for the first time, with one release and a tag of the
    same name: the repository and the release are announced, the tag is not,
    and the release and the tag are both stored.
   */
  lemma ReleaseAndTagTogether(s: Snapshot, x: Repo, rel: Release, tag: Tag)
    requires x.name !in RepoNames(s.repos) && x.name !in s.releases && x.name !in s.tags
    requires rel.tagName == tag.name
    ensures var p := Pass(s, [x], [Fetched([rel], [tag])]);
      && p.notes == [RepoNote(x), ReleaseNote(x.name, rel)]
      && p.snap == Snapshot([x], s.releases[x.name := [ReleaseSummary(rel.id, rel.tagName)]],
                                 s.tags[x.name := [TagSummary(tag.name, tag.sha)]])
  {
    PassOne(s, x, Fetched([rel], [tag]));
    UnknownRepoIsNew(s, x);
    TogetherStep(s.(repos := [x]), x.name, rel, tag);
  }

  /** The repository's step when only a tag is fetched and nothing is stored: the tag is announced. */
  lemma TagOnlyStep(s: Snapshot, repoName: string, tag: Tag)
    requires repoName !in s.releases && repoName !in s.tags
    ensures RepoStep(s, repoName, Fetched([], [tag])) ==
      Step(s.(tags := s.tags[repoName := [TagSummary(tag.name, tag.sha)]]), [TagNote(repoName, tag)])
  {
    assert ReleasePhase(s, repoName, []) == Step(s, []);
    UncoveredFirstTag(s, repoName, tag);
    assert [] + [TagNote(repoName, tag)] == [TagNote(repoName, tag)];
  }

  /**
    The repository's step when a release appears whose tag is already the
    stored tag list: only the release is announced.
   */
  lemma KnownTagStep(s: Snapshot, repoName: string, rel: Release, tag: Tag)
    requires repoName !in s.releases
    requires repoName in s.tags && s.tags[repoName] == [TagSummary(tag.name, tag.sha)]
    ensures RepoStep(s, repoName, Fetched([rel], [tag])) ==
      Step(s.(releases := s.releases[repoName := [ReleaseSummary(rel.id, rel.tagName)]]), [ReleaseNote(repoName, rel)])
  {
    var r := ReleasePhase(s, repoName, [rel]);
    FirstRelease(s, repoName, rel);
    OneTagSummary(tag);
    assert TagsSettled(r.snap, repoName, [tag]);
    TagPhaseQuiet(r.snap, repoName, [tag]);
    var b := TagPhase(r.snap, repoName, [tag]);
    assert RepoStep(s, repoName, Fetched([rel], [tag])) == Step(b.snap, r.notes + b.notes);
    assert r.notes + [] == r.notes;
  }

  /** A repository seen for the first time with only a tag: the tag is announced and stored. */
  lemma TagFirst(s: Snapshot, x: Repo, tag: Tag)
    requires x.name !in RepoNames(s.repos) && x.name !in s.releases && x.name !in s.tags
    ensures var p := Pass(s, [x], [Fetched([], [tag])]);
      && p.notes == [RepoNote(x), TagNote(x.name, tag)]
      && p.snap == Snapshot([x], s.releases, s.tags[x.name := [TagSummary(tag.name, tag.sha)]])
  {
    PassOne(s, x, Fetched([], [tag]));
    UnknownRepoIsNew(s, x);
    TagOnlyStep(s.(repos := [x]), x.name, tag);
  }

  /**
    The next run, when the release appears: it is announced and stored,
    and its tag, already stored, is not announced again.
   */
  lemma ReleaseAfterTag(k: Snapshot, x: Repo, rel: Release, tag: Tag)
    requires k.repos == [x] && x.name !in k.releases
    requires x.name in k.tags && k.tags[x.name] == [TagSummary(tag.name, tag.sha)]
    ensures Pass(k, [x], [Fetched([rel], [tag])]).notes == [ReleaseNote(x.name, rel)]
  {
    PassOne(k, x, Fetched([rel], [tag]));
    NewReposIdempotent([x], k);
    assert k.(repos := [x]) == k;
    KnownTagStep(k, x.name, rel, tag);
    assert [] + [ReleaseNote(x.name, rel)] == [ReleaseNote(x.name, rel)];
  }

  /**
    A tag seen on one run and its release on the next: the first run
    announces the repository and the tag, the second only the release.
   */
  lemma TagThenRelease(s: Snapshot, x: Repo, rel: Release, tag: Tag)
    requires x.name !in RepoNames(s.repos) && x.name !in s.releases && x.name !in s.tags
    ensures var first := Pass(s, [x], [Fetched([], [tag])]);
      var second := Pass(first.snap, [x], [Fetched([rel], [tag])]);
      && first.notes == [RepoNote(x), TagNote(x.name, tag)]
      && second.notes == [ReleaseNote(x.name, rel)]
  {
    TagFirst(s, x, tag);
    ReleaseAfterTag(Pass(s, [x], [Fetched([], [tag])]).snap, x, rel, tag);
  }
}
