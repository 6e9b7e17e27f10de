/**
  The string rules of the notifier: which tag names mark a special release,
  the title chosen for a release or tag notification, and the truncation of
  release notes. Strings are sequences of Unicode code points, as in Python.
 */
module Text {

  import opened Wrappers

  /** ASCII lower-casing of one character (see README for why ASCII suffices). */
  function LowerChar(c: char): char
  {
    if 'A' <= c <= 'Z' then (c as int + 32) as char else c
  }

  function Lower(s: string): string
  {
    seq(|s|, i requires 0 <= i < |s| => LowerChar(s[i]))
  }

  /** `sub` occurs in `s` starting at position `i`. */
  predicate OccursAt(s: string, sub: string, i: int)
  {
    0 <= i <= |s| - |sub| && s[i..i + |sub|] == sub
  }

  /** Python's `sub in s` on strings. */
  function Contains(s: string, sub: string): (r: bool)
    ensures r <==> exists i :: OccursAt(s, sub, i)
    decreases |s|
  {
    if |s| < |sub| then false
    else if s[..|sub|] == sub then
      assert OccursAt(s, sub, 0);
      true
    else
      var r := Contains(s[1..], sub);
      assert forall i :: OccursAt(s[1..], sub, i) <==> OccursAt(s, sub, i + 1) by {
        forall i ensures OccursAt(s[1..], sub, i) <==> OccursAt(s, sub, i + 1) {
          if 0 <= i <= |s| - 1 - |sub| {
            assert s[1..][i..i + |sub|] == s[i + 1..i + 1 + |sub|];
          }
        }
      }
      assert forall i :: OccursAt(s, sub, i) ==> i != 0 && OccursAt(s[1..], sub, i - 1);
      r
  }

  /** The tag name contains a character that lower-cases to `a`, directly followed by `b`. */
  predicate HasPair(tagName: string, a: char, b: char)
  {
    exists i :: 0 <= i < |tagName| - 1 && LowerChar(tagName[i]) == a && tagName[i + 1] == b
  }

  lemma ContainsLowerPair(tagName: string, a: char, b: char)
    requires b == LowerChar(b) && forall c :: LowerChar(c) == b ==> c == b
    ensures Contains(Lower(tagName), [a, b]) <==> HasPair(tagName, a, b)
  {
    if HasPair(tagName, a, b) {
      var i :| 0 <= i < |tagName| - 1 && LowerChar(tagName[i]) == a && tagName[i + 1] == b;
      LowerPairAt(tagName, a, b, i);
    }
    if Contains(Lower(tagName), [a, b]) {
      var i :| OccursAt(Lower(tagName), [a, b], i);
      LowerPairAt(tagName, a, b, i);
    }
  }

  /**
    `is_special_release`: the lower-cased tag name contains "v3" or "r2";
    equivalently some character that lower-cases to 'v' is directly followed
    by '3', or one that lower-cases to 'r' by '2'.
   */
  function IsSpecialRelease(tagName: string): (r: bool)
    ensures r <==> HasPair(tagName, 'v', '3') || HasPair(tagName, 'r', '2')
  {
    ContainsLowerPair(tagName, 'v', '3');
    ContainsLowerPair(tagName, 'r', '2');
    Contains(Lower(tagName), "v3") || Contains(Lower(tagName), "r2")
  }

  /** A two-character string occurs in the lower-cased `s` where its characters do. */
  lemma LowerPairAt(s: string, a: char, b: char, i: int)
    ensures OccursAt(Lower(s), [a, b], i) <==>
              0 <= i < |s| - 1 && LowerChar(s[i]) == a && LowerChar(s[i + 1]) == b
  {
    if 0 <= i < |s| - 1 {
      var w := Lower(s)[i..i + 2];
      assert w[0] == LowerChar(s[i]) && w[1] == LowerChar(s[i + 1]);
      if LowerChar(s[i]) == a && LowerChar(s[i + 1]) == b {
        assert w == [a, b];
      }
    }
  }

  // Notification titles. The emoji are part of the title text.
  const SpecialReleasePrefix: string := "\U{1F680} Special Release Alert - "
  const SpecialReleaseSuffix: string := " \U{1F680}"
  const NewReleasePrefix: string := "\U{1F4E6} New Release: "
  const SpecialTagPrefix: string := "\U{1F3F7}\U{FE0F} Special Tag: "
  const NewTagPrefix: string := "\U{1F3F7}\U{FE0F} New Tag: "
  const NewRepoPrefix: string := "\U{1F195} New Repository: "

  /**
    Title of a new-release notification (`format_new_release`): a rocket for
    a special tag, a package otherwise; it always names the tag, and names
    the repository unless the tag is special.
   */
  function ReleaseTitle(repoName: string, tagName: string): (t: string)
    ensures |t| > 0 && t[0] == if IsSpecialRelease(tagName) then '\U{1F680}' else '\U{1F4E6}'
    ensures exists i :: OccursAt(t, tagName, i)
    ensures !IsSpecialRelease(tagName) ==> exists i :: OccursAt(t, repoName, i)
  {
    if IsSpecialRelease(tagName) then
      var t := SpecialReleasePrefix + tagName + SpecialReleaseSuffix;
      assert OccursAt(t, tagName, |SpecialReleasePrefix|);
      t
    else
      var t := NewReleasePrefix + repoName + " " + tagName;
      assert OccursAt(t, repoName, |NewReleasePrefix|);
      assert OccursAt(t, tagName, |t| - |tagName|);
      t
  }

  /**
    Title of a new-tag notification (`format_new_tag`): a label emoji; it
    always names the tag, and names the repository unless the tag is special.
   */
  function TagTitle(repoName: string, tagName: string): (t: string)
    ensures |t| > 0 && t[0] == '\U{1F3F7}'
    ensures exists i :: OccursAt(t, tagName, i)
    ensures !IsSpecialRelease(tagName) ==> exists i :: OccursAt(t, repoName, i)
  {
    if IsSpecialRelease(tagName) then
      var t := SpecialTagPrefix + tagName;
      assert OccursAt(t, tagName, |SpecialTagPrefix|);
      t
    else
      var t := NewTagPrefix + repoName + " " + tagName;
      assert OccursAt(t, repoName, |NewTagPrefix|);
      assert OccursAt(t, tagName, |t| - |tagName|);
      t
  }

  /** Title of a new-repository notification (`format_new_repo`): it names the repository. */
  function RepoTitle(repoName: string): (t: string)
    ensures |t| > 0 && t[0] == '\U{1F195}'
    ensures exists i :: OccursAt(t, repoName, i)
  {
    var t := NewRepoPrefix + repoName;
    assert OccursAt(t, repoName, |NewRepoPrefix|);
    t
  }

  lemma TagTitleStart(repoName: string, tagName: string)
    ensures TagTitle(repoName, tagName)[3] == if IsSpecialRelease(tagName) then 'S' else 'N'
  {
    var t := TagTitle(repoName, tagName);
    if IsSpecialRelease(tagName) {
      assert t[3] == SpecialTagPrefix[3];
    } else {
      assert t[3] == NewTagPrefix[3];
    }
  }

  /** Two release titles for the same repository name the same tag. */
  lemma ReleaseTitleDeterminesTag(repoName: string, t1: string, t2: string)
    requires ReleaseTitle(repoName, t1) == ReleaseTitle(repoName, t2)
    ensures t1 == t2
  {
    var x := ReleaseTitle(repoName, t1);
    // A special and an ordinary title differ in their first character.
    if IsSpecialRelease(t1) && IsSpecialRelease(t2) {
      var k := |SpecialReleasePrefix|;
      assert x[k..k + |t1|] == t1;
      assert x[k..k + |t2|] == t2;
    } else if !IsSpecialRelease(t1) && !IsSpecialRelease(t2) {
      var k := |NewReleasePrefix| + |repoName| + 1;
      assert x[k..] == t1;
      assert x[k..] == t2;
    }
  }

  /**
    The same tag gives the same release title in two repositories exactly
    when the repositories are the same or the tag is special (a special
    title leaves the repository out).
   */
  lemma ReleaseTitleNamesRepo(r1: string, r2: string, tagName: string)
    ensures ReleaseTitle(r1, tagName) == ReleaseTitle(r2, tagName) <==> r1 == r2 || IsSpecialRelease(tagName)
  {
    if ReleaseTitle(r1, tagName) == ReleaseTitle(r2, tagName) && !IsSpecialRelease(tagName) {
      var x := ReleaseTitle(r1, tagName);
      var k := |NewReleasePrefix|;
      assert |r1| == |r2|;
      assert x[k..k + |r1|] == r1;
      assert x[k..k + |r2|] == r2;
    }
  }

  /** Two tag titles for the same repository name the same tag. */
  lemma TagTitleDeterminesTag(repoName: string, t1: string, t2: string)
    requires TagTitle(repoName, t1) == TagTitle(repoName, t2)
    ensures t1 == t2
  {
    var x := TagTitle(repoName, t1);
    // A special and an ordinary title differ in their fourth character.
    TagTitleStart(repoName, t1);
    TagTitleStart(repoName, t2);
    if IsSpecialRelease(t1) && IsSpecialRelease(t2) {
      var k := |SpecialTagPrefix|;
      assert x[k..] == t1;
      assert x[k..] == t2;
    } else if !IsSpecialRelease(t1) && !IsSpecialRelease(t2) {
      var k := |NewTagPrefix| + |repoName| + 1;
      assert x[k..] == t1;
      assert x[k..] == t2;
    }
  }

  /** The tag-title counterpart of `ReleaseTitleNamesRepo`. */
  lemma TagTitleNamesRepo(r1: string, r2: string, tagName: string)
    ensures TagTitle(r1, tagName) == TagTitle(r2, tagName) <==> r1 == r2 || IsSpecialRelease(tagName)
  {
    if TagTitle(r1, tagName) == TagTitle(r2, tagName) && !IsSpecialRelease(tagName) {
      var x := TagTitle(r1, tagName);
      var k := |NewTagPrefix|;
      assert |r1| == |r2|;
      assert x[k..k + |r1|] == r1;
      assert x[k..k + |r2|] == r2;
    }
  }

  /** Repository, release and tag notifications never share a title. */
  lemma TitleKindsDiffer(repoName: string, tagName: string, otherRepo: string, otherTag: string, newRepo: string)
    ensures ReleaseTitle(repoName, tagName) != TagTitle(otherRepo, otherTag)
    ensures ReleaseTitle(repoName, tagName) != RepoTitle(newRepo)
    ensures TagTitle(otherRepo, otherTag) != RepoTitle(newRepo)
  {
    var r := ReleaseTitle(repoName, tagName);
    var t := TagTitle(otherRepo, otherTag);
    var n := RepoTitle(newRepo);
    assert r[0] == '\U{1F680}' || r[0] == '\U{1F4E6}';
    assert t[0] == '\U{1F3F7}';
    assert n[0] == '\U{1F195}';
  }

  const NotesLimit: nat := 500
  const Ellipsis: string := "..."

  /**
    The "Release Notes" part of a release notification: absent for an empty
    body, otherwise the first 500 characters of the body, followed by "..."
    only when something was cut off.
   */
  function NotesSection(body: string): (notes: Option<string>)
    ensures notes.Some? <==> body != []
    ensures notes.Some? && |body| <= NotesLimit ==> notes.value == body
    ensures notes.Some? && |body| > NotesLimit ==>
              |notes.value| == NotesLimit + |Ellipsis| &&
              notes.value[..NotesLimit] == body[..NotesLimit] &&
              notes.value[NotesLimit..] == Ellipsis
  {
    if body == [] then None
    else
      var head := if |body| <= NotesLimit then body else body[..NotesLimit];
      Some(if |body| > NotesLimit then head + Ellipsis else head)
  }
}
