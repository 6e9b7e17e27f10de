# DeepSeek GitHub monitor: change detection and reconciliation

This project models the core of `monitor.py`. The monitor lists an
organization's repositories and, for each repository, its releases and tags.
It compares them with a snapshot kept from the previous run, sends one
notification per new repository, per new release, and per new tag that no
stored release covers, and saves the updated snapshot.

The model has six modules:

- `Seqs`: an order-preserving filter with a contract that determines it
  (subsequence, kept elements, multiplicities). It is the shape of the
  three list comprehensions in the detectors.
- `Text`: the string rules. `is_special_release`, the choice between a
  "special" and an ordinary title for release and tag notifications, and
  the truncation of release notes to 500 characters plus `"..."`.
- `State`: the records, the snapshot (repository listing, and per
  repository name the last non-empty release and tag lists), and the
  detectors `detect_new_repos`, `detect_new_releases` and
  `detect_new_tags`.
- `Reconcile`: one monitoring run as pure functions. `ReleasePhase`,
  `TagPhase` and `RepoStep` cover the `try` body for one repository,
  `Fold` covers the `for repo in repos` loop, and `Pass` covers the whole
  run after the listing. Each returns the new snapshot and the
  notifications sent, in order.
- `Monitor`: the class `Watcher`, which holds the state file, the
  in-memory snapshot and the log of sent notifications. Its methods
  perform `main` step by step, with loops that update the snapshot and
  append to the log. Each method is proved equal to the corresponding
  `Reconcile` function.
- `Properties`: lemmas about the detectors and the run. They cover:
  - idempotence;
  - tag/release de-duplication;
  - overwrite only on a non-empty fetch;
  - isolation of a failing repository;
  - keys are never removed;
  - notification order;
  - a release and its tag fetched in one run or in two runs.

Fetch results are inputs. `RunPass` receives the outcome of the repository
listing, as `None` when `fetch_repos` raised. For each repository it also
receives one `FetchOutcome`:

- `Fetched(releases, tags)`;
- `ReleasesFailed`, when `fetch_releases` raised;
- `TagsFailed(releases)`, when `fetch_tags` raised after the releases
  were fetched.

The notifier is modelled as appending to the `sent` log.

Behaviours of the code that are easy to misread:

- A repository's release or tag entry is written only when the fetched
  list is non-empty (`if releases:` at line 226, `if tags:` at line 241).
  It is not replaced unconditionally. After an empty fetch, a repository
  that had no entry still has none; no empty list is stored for it
  (`Properties.TagFirst` shows the release entries left as they were).
- The tag filter compares against the releases stored for the repository
  at line 235. When this run's release list is non-empty, that is exactly
  this run's releases. When it is empty, it is the releases stored by an
  earlier run.
- Notification failures are not ignored. A failed send raises. At line
  204 it is outside the `try` and ends the run before the save. At lines
  222 and 237 it ends that repository's processing.
- The save is a plain overwrite of the state file, not an atomic replace.

## Model

| member | source | states |
|---|---|---|
| Seqs.Filter | monitor.py:112 | The list comprehension `[x for x in s if keep(x)]`. Its result is a subsequence of `s`, holds exactly the elements of `s` that satisfy `keep`, and holds each kept element as often as `s` does. |
| Seqs.FilterUnique | monitor.py:109-129 | Any subsequence with only kept elements and every kept element's full count equals the filter, so the detectors' contracts determine their results. |
| Seqs.FilterAll | monitor.py:120 | When every element is kept, the filter returns the whole list. |
| Seqs.FilterNone | monitor.py:120 | When no element is kept, the filter returns the empty list. |
| Seqs.SubseqMultiset | monitor.py:112 | A subsequence takes no element more often than the original list holds it. |
| Text.Contains | monitor.py:106 | Python's substring test: true exactly when the substring occurs at some position. |
| Text.IsSpecialRelease | monitor.py:104-106 | True exactly when the tag name has a character that lower-cases to `v` directly followed by `3`, or one that lower-cases to `r` directly followed by `2`. That is, the lower-cased name contains "v3" or "r2". |
| Text.ReleaseTitleDeterminesTag | monitor.py:150-153 | Two release titles for the same repository are equal only for the same tag name, whether each title is special or ordinary. |
| Text.ReleaseTitleNamesRepo | monitor.py:150-153 | A tag gives equal release titles in two repositories exactly when the repositories are the same or the tag is special. The special title omits the repository. |
| Text.TagTitleDeterminesTag | monitor.py:175-178 | Two tag titles for the same repository are equal only for the same tag name. |
| Text.TagTitleNamesRepo | monitor.py:175-178 | A tag gives equal tag titles in two repositories exactly when the repositories are the same or the tag is special. |
| Text.ReleaseTitle | monitor.py:150-153 | A release title starts with a rocket for a special tag and with a package otherwise. It always contains the tag name, and it contains the repository name unless the tag is special. |
| Text.TagTitle | monitor.py:175-178 | A tag title starts with the label emoji. It always contains the tag name, and it contains the repository name unless the tag is special. |
| Text.RepoTitle | monitor.py:134 | A repository title starts with the "new" emoji and contains the repository name. |
| Text.TitleKindsDiffer | monitor.py:132-178 | A repository title, a release title and a tag title are never equal. |
| Text.NotesSection | monitor.py:163-168 | Release notes are absent exactly when the body is empty. A body of at most 500 characters is kept whole. A longer body becomes its first 500 characters followed by "...", 503 characters in all. |
| State.EmptySnapshot | monitor.py:29 | The default snapshot has an empty listing, and every repository reads as having no stored releases and no stored tags. |
| State.StoredReleases | monitor.py:118 | `state["releases"].get(repo_name, [])`: the stored entry when the key is present, the empty list when it is missing. |
| State.StoredTags | monitor.py:126 | `state["tags"].get(repo_name, [])`: the stored entry when the key is present, the empty list when it is missing. |
| State.ReleaseSummaries | monitor.py:227 | The stored summary list has one entry per fetched release, in order with the same tag names. Its ids are exactly the fetched release ids, so the entry replaces what earlier runs stored rather than merging with it. |
| State.TagSummaries | monitor.py:242 | The stored summary list has one entry per fetched tag. Its names are exactly the fetched tag names, so the entry replaces what earlier runs stored rather than merging with it. |
| State.NewRepos | monitor.py:109-113 | The result is the order-preserving subsequence of the listing whose names the snapshot's listing lacks, with multiplicities. Ids play no part. |
| State.NewReleases | monitor.py:116-121 | The result is the order-preserving subsequence of the fetched releases whose id is not among the releases stored for the repository. A missing entry counts as empty. |
| State.NewTags | monitor.py:124-129 | The result is the order-preserving subsequence of the fetched tags whose name is not among the tags stored for the repository. A missing entry counts as empty. |
| Reconcile.CoveredByRelease | monitor.py:235 | The `any(...)` test: true exactly when the release summary at some position of the stored list carries the tag name. |
| Reconcile.UncoveredTags | monitor.py:233-238 | The tags the loop announces: the order-preserving subsequence of the new tags that no stored release covers, each kept as often as it occurs. |
| Reconcile.ReleasePhase | monitor.py:217-227 | The releases part of one repository's `try` body. It leaves the listing and the tag entries alone. It adds the repository's release key exactly when the fetched list is non-empty. It sends at most one notification per fetched release, and each is a release notification for this repository. |
| Reconcile.TagPhase | monitor.py:230-242 | The tags part of one repository's `try` body. It leaves the listing and the release entries alone. It adds the repository's tag key exactly when the fetched list is non-empty. It sends at most one notification per fetched tag, and each is a tag notification for this repository. |
| Reconcile.RepoStep | monitor.py:215-245 | The whole `try` body for one repository, with its two failure points. It keeps the listing, may add a release or tag key only for this repository, and sends only release and tag notifications about this repository. |
| Reconcile.Fold | monitor.py:211-245 | The `for repo in repos` loop as the repository steps in listing order. It leaves the stored listing as line 208 set it. |
| Reconcile.Pass | monitor.py:200-245 | A run after a successful listing. The saved listing is the current listing, and the notifications begin with one per new repository, in listing order. |
| Monitor.Loaded | monitor.py:21-29 | `load_state`: a readable state file gives its snapshot; a missing or unreadable one gives the empty default. |
| Monitor.Watcher.Notify | monitor.py:86-101 | A send appends exactly one notification to the log. |
| Monitor.Watcher.ProcessReleases | monitor.py:217-227 | Sends one release notification per new release, in fetch order. Then it overwrites the repository's release entry only if the fetched list is non-empty. The result equals `ReleasePhase` of the old state. |
| Monitor.Watcher.AnnounceUncoveredTags | monitor.py:234-238 | Sends, in order, one tag notification per new tag that no release stored for the repository covers, and nothing else. |
| Monitor.Watcher.ProcessTags | monitor.py:230-242 | Sends one tag notification per new tag that no stored release covers, in fetch order. Then it overwrites the tag entry only if the fetched list is non-empty. The result equals `TagPhase` of the old state. |
| Monitor.Watcher.ProcessRepo | monitor.py:215-245 | The `try` body for one repository, with its two failure points. It equals `RepoStep`. |
| Monitor.Watcher.AnnounceNewRepos | monitor.py:201-205 | Sends one notification per new repository, in listing order. |
| Monitor.Watcher.ProcessAll | monitor.py:211-245 | Processes the listed repositories in order. The snapshot and the notifications sent equal `Fold` of the old snapshot. |
| Monitor.Watcher.RunPass | monitor.py:194-248 | A failed listing sends nothing and leaves the state file as it was. Otherwise the notifications sent and the snapshot saved once at the end are exactly those of `Pass` applied to the loaded snapshot. An absent state file loads as the empty snapshot. |
| Properties.NewReposIdempotent | monitor.py:208 | Once the stored listing is the current one, no repository is new. |
| Properties.NewReposByName | monitor.py:111-112 | Snapshots whose listings have the same names detect the same new repositories, whatever the ids. |
| Properties.NewReleasesIdempotent | monitor.py:226-227 | After a fetched release list is stored, none of its releases is new. |
| Properties.NewTagsIdempotent | monitor.py:241-242 | After a fetched tag list is stored, none of its tags is new. |
| Properties.NewReleasesMissingKey | monitor.py:118 | A repository with no release entry has every fetched release new. |
| Properties.NewTagsMissingKey | monitor.py:126 | A repository with no tag entry has every fetched tag new. |
| Properties.SettledIsQuiet | monitor.py:215-242 | A repository whose stored entries already match the fetch is processed with no notification and no change. |
| Properties.ReleasePhaseQuiet | monitor.py:217-227 | The releases part for a settled repository sends nothing and changes nothing. |
| Properties.TagPhaseQuiet | monitor.py:230-242 | The tags part for a settled repository sends nothing and changes nothing. |
| Properties.RepoStepSettles | monitor.py:215-242 | After a repository is processed, its entries match what was fetched. |
| Properties.RepoStepIdempotent | monitor.py:215-242 | Processing a repository twice with the same fetch results sends nothing and changes nothing the second time. |
| Properties.RepoStepLocal | monitor.py:215-242 | Processing one repository keeps the listing and removes no key. Every other repository's release and tag entries stay as they were. |
| Properties.EntriesOverwrittenOnlyWhenNonEmpty | monitor.py:226-242 | A release entry is replaced exactly when the release fetch succeeded with a non-empty list, and a tag entry exactly when the tag fetch did. Otherwise the entry, or its absence, is unchanged. |
| Properties.CoveredBySummaries | monitor.py:227 | A tag name is covered by the stored summaries exactly when some fetched release has that tag name. |
| Properties.AnnouncedTags | monitor.py:233-237 | A notification is among the tag notifications exactly when it is a tag notification for this repository of one of the listed tags. |
| Properties.AnnouncedReleases | monitor.py:220-222 | A notification is among the release notifications exactly when it is a release notification for this repository of one of the listed releases. |
| Properties.TagAnnouncedIff | monitor.py:226-238 | A tag is announced exactly when three things hold. It was fetched. Its name is not stored. No release covers it: if this run's release list is non-empty, none of those releases has its name; otherwise no earlier stored release does. |
| Properties.ReleaseAnnouncedIff | monitor.py:218-222 | A release notification is sent for a release exactly when the release fetch succeeded, the release was fetched, and its id is not among the releases stored for the repository. |
| Properties.ReleaseSuppressesItsTag | monitor.py:226-238 | A new release and a tag of the same name fetched together give the release notification and no tag notification, in whatever order they were listed. |
| Properties.TagFailureKeepsReleaseWork | monitor.py:217-230 | When `fetch_tags` raises, the release entry is that of a fully successful fetch and the tag entries are untouched. The successful fetch sends exactly the failed run's notifications followed by the tags part's, so the release notifications are the same. |
| Properties.FoldSnoc | monitor.py:211-245 | The loop's last iteration processes the last repository after all the others. |
| Properties.FoldAppend | monitor.py:211-245 | The loop over two concatenated listings runs them one after the other. |
| Properties.FailedRepoIsSkipped | monitor.py:211-245 | A repository whose release fetch raises leaves the loop as if it were not listed. The repositories before and after it are processed and notified as usual. |
| Properties.FoldKeepsKeys | monitor.py:211-245 | The loop keeps the listing and removes no release or tag key. |
| Properties.FoldLeavesOthers | monitor.py:211-245 | Entries of a repository not in the listing are untouched by the loop. |
| Properties.FoldSettles | monitor.py:211-245 | With distinct names, every listed repository is settled after the loop. |
| Properties.FoldQuiet | monitor.py:211-245 | A loop over settled repositories sends nothing and changes nothing. |
| Properties.PassIdempotent | monitor.py:194-248 | A second run with the same fetch results, from the snapshot the first run saved, sends nothing and saves the same snapshot. |
| Properties.PassKeepsEntries | monitor.py:208-242 | A run replaces the stored listing wholesale but removes no release or tag entry, even for repositories no longer listed. |
| Properties.FoldSendsNoRepoNote | monitor.py:211-245 | The per-repository loop sends only release and tag notifications. |
| Properties.PassAnnouncesReposFirst | monitor.py:200-245 | A run first announces every new repository in listing order, and only then sends release and tag notifications. |
| Properties.FirstPassAnnouncesAll | monitor.py:29 | A run from the empty default snapshot announces every listed repository first. |
| Properties.PassOne | monitor.py:200-245 | A run over a one-repository listing is that repository's step after the repository announcement. |
| Properties.UnknownRepoIsNew | monitor.py:109-113 | A repository whose name the snapshot does not list is announced. |
| Properties.FirstRelease | monitor.py:217-227 | A single release of a repository with no release entry is announced and becomes the repository's release entry. |
| Properties.CoveredFirstTag | monitor.py:230-242 | A single new tag whose release is stored for the repository is stored but not announced. |
| Properties.UncoveredFirstTag | monitor.py:230-242 | A single new tag of a repository with no release entry is announced and stored. |
| Properties.TogetherStep | monitor.py:217-242 | A new release and its tag fetched together: the release is announced, the tag is not, and both are stored. |
| Properties.ReleaseAndTagTogether | monitor.py:200-242 | A repository seen for the first time, with one release and a tag of the same name, gives a repository and a release notification but no tag notification. The saved snapshot lists the repository and stores the release and the tag. |
| Properties.TagOnlyStep | monitor.py:217-242 | With nothing stored for the repository, a fetch with no release and one tag announces the tag and stores it. |
| Properties.KnownTagStep | monitor.py:217-242 | When the fetched tag is already the stored tag list, a first release is announced and stored, and the tag is not announced again. |
| Properties.TagFirst | monitor.py:200-242 | A repository seen for the first time with only a tag gives a repository and a tag notification. It stores the tag and creates no release entry. |
| Properties.ReleaseAfterTag | monitor.py:200-242 | On a later run, when the release of an already stored tag appears, only the release is announced. |
| Properties.TagThenRelease | monitor.py:200-242 | Over two runs, a tag fetched first and its release fetched next: the first run announces the repository and the tag, the second announces only the release. |

## Left out

- Fetching and pagination (`get_headers`, `fetch_repos`, `fetch_releases`, `fetch_tags`, lines 38-83) are network I/O. Their results are the inputs `listing` and `outcomes`.
- Monitor.Watcher.Notify: `send_feishu_notification` (lines 86-101) is an HTTP POST. It is modelled as always succeeding. A failed send, which aborts the run at line 204 or ends one repository's processing at lines 222 and 237, is not modelled.
- Monitor.Watcher.RunPass: reading and writing the JSON state file (lines 21-35) are file I/O. The file is an `Option<Snapshot>`, where `None` stands for a missing or unparsable file. The save is a plain overwrite; a crash during the save is not modelled.
- Missing JSON fields are not modelled. Records always carry the fields the code reads, so the `"unknown"` fallback for a release without `tag_name` (line 147) and a `KeyError` inside the `try` do not arise.
- A release body of `None` is not distinguished from an empty body: both give no release notes (line 163).
- Notification content other than the titles and the notes truncation is not modelled. This covers the content lines, repository metadata, `"N/A"` defaults and the 7-character SHA slice (lines 132-186). The snapshot stores a repository as its name and id, and a notification carries the fetched record.
- Printing and timestamps (lines 191, 198, 205, 213, 223, 238, 245, 250) are not modelled.
- Text.IsSpecialRelease: lower-casing is modelled for ASCII letters only. In Python's `str.lower`, only `V` and `R` lower-case to `v` and `r`, and no character lower-cases to `3` or `2`. Characters whose lower case is longer than one character produce neither letter. So the "v3"/"r2" test gives the same answer on every string.
- Properties.PassIdempotent and Properties.FoldSettles: these require distinct repository names in the listing, as in an organization's repository list. With a repeated name, the later fetch result overwrites the earlier one within a run.
