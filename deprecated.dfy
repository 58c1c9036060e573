/** Deprecated icons of the coming Simple Icons releases
    (libs/simple-icons/src/deprecated.rs): from the milestones of the
    upstream repository, their pull requests and the files each one
    changes, the icons that will be removed or renamed, one record per
    slug. The GraphQL response is taken as already parsed. */
module Deprecated {
  import opened Strings

  /** One changed file of a pull request. A path that is not a JSON string
      reads as "" (`unwrap_or_default`); a change type that is not a JSON
      string is any text other than "ADDED" and "DELETED". */
  datatype FileChange = FileChange(path: string, changeType: string)

  datatype PullRequest = PullRequest(number: nat, files: seq<FileChange>)

  datatype Milestone = Milestone(title: string, number: nat, dueOn: string,
                                 pullRequests: seq<PullRequest>)

  /** `IconDeprecation`; `newSlug` is `Some` when the icon is renamed. */
  datatype IconDeprecation = IconDeprecation(slug: string, atVersion: string,
                                             milestoneNumber: nat, milestoneDueOn: string,
                                             pullRequestNumber: nat, newSlug: Option<string>)

  /** A file the extraction looks at: under "icons/" with the ".svg"
      extension. */
  predicate IsIconFile(path: string)
  {
    StartsWith(path, "icons/") && EndsWith(path, ".svg")
  }

  predicate IsDeletedIcon(f: FileChange)
  {
    IsIconFile(f.path) && f.changeType == "DELETED"
  }

  predicate IsAddedIcon(f: FileChange)
  {
    IsIconFile(f.path) && f.changeType == "ADDED"
  }

  /** The slug of an icon path: every "icons/", then every ".svg", removed. */
  function SlugOf(path: string): string
  {
    ReplaceAll(ReplaceAll(path, "icons/", ""), ".svg", "")
  }

  /** The version of a milestone: its title with every 'v' removed. */
  function AtVersion(title: string): (r: string)
    ensures 'v' !in r
    ensures 'v' !in title ==> r == title
  {
    RemoveV(title);
    ReplaceAll(title, "v", "")
  }

  lemma {:induction false} RemoveV(s: string)
    ensures 'v' !in ReplaceAll(s, "v", "")
    ensures 'v' !in s ==> ReplaceAll(s, "v", "") == s
  {
    if s != [] {
      ReplaceCharStep(s, 'v', "");
      RemoveV(s[1..]);
      assert s == [s[0]] + s[1..];
    }
  }

  /** The slug of a pull request's last added icon file: the first loop
      overwrites `new_slug` at every such file. */
  function LastAddedSlug(files: seq<FileChange>): (r: Option<string>)
  {
    if files == [] then None
    else
      var last := files[|files| - 1];
      if IsAddedIcon(last) then Some(SlugOf(last.path))
      else LastAddedSlug(files[..|files| - 1])
  }

  predicate ContainsDeleted(files: seq<FileChange>)
  {
    exists k :: 0 <= k < |files| && IsDeletedIcon(files[k])
  }

  predicate ContainsAdded(files: seq<FileChange>)
  {
    exists k :: 0 <= k < |files| && IsAddedIcon(files[k])
  }

  /** The new slug the records of a pull request carry: the last added
      icon's, and only when the pull request also deletes an icon. */
  function RenamedTo(files: seq<FileChange>): Option<string>
  {
    if ContainsDeleted(files) then LastAddedSlug(files) else None
  }

  /** No icon file after position `k` is added. */
  predicate NoAddedAfter(files: seq<FileChange>, k: nat)
  {
    forall j :: k < j < |files| ==> !IsAddedIcon(files[j])
  }

  /** The last added icon is an added icon of the pull request, and no
      added icon comes after it; there is one exactly when the pull
      request adds an icon. */
  lemma {:induction false} LastAddedSlugIs(files: seq<FileChange>)
    ensures LastAddedSlug(files).Some? <==> ContainsAdded(files)
    ensures LastAddedSlug(files).Some? ==>
      exists k :: 0 <= k < |files| && IsAddedIcon(files[k])
        && LastAddedSlug(files).value == SlugOf(files[k].path)
        && NoAddedAfter(files, k)
  {
    LastAddedSlugSome(files);
    if LastAddedSlug(files).Some? {
      LastAddedSlugWitness(files);
    }
  }

  lemma {:induction false} LastAddedSlugSome(files: seq<FileChange>)
    ensures LastAddedSlug(files).Some? <==> ContainsAdded(files)
  {
    if files != [] {
      var n := |files| - 1;
      var init := files[..n];
      if IsAddedIcon(files[n]) {
        assert 0 <= n < |files| && IsAddedIcon(files[n]);
      } else {
        assert LastAddedSlug(files) == LastAddedSlug(init);
        LastAddedSlugSome(init);
        if ContainsAdded(files) {
          var k :| 0 <= k < |files| && IsAddedIcon(files[k]);
          assert k < n && init[k] == files[k];
        }
        if ContainsAdded(init) {
          var k :| 0 <= k < |init| && IsAddedIcon(init[k]);
          assert files[k] == init[k];
        }
      }
    }
  }

  lemma {:induction false} LastAddedSlugWitness(files: seq<FileChange>)
    requires LastAddedSlug(files).Some?
    ensures exists k :: 0 <= k < |files| && IsAddedIcon(files[k])
                        && LastAddedSlug(files).value == SlugOf(files[k].path)
                        && NoAddedAfter(files, k)
  {
    var n := |files| - 1;
    var init := files[..n];
    if IsAddedIcon(files[n]) {
      assert LastAddedSlug(files).value == SlugOf(files[n].path);
      assert NoAddedAfter(files, n);
    } else {
      assert LastAddedSlug(files) == LastAddedSlug(init);
      LastAddedSlugWitness(init);
      var k :| 0 <= k < |init| && IsAddedIcon(init[k])
        && LastAddedSlug(init).value == SlugOf(init[k].path)
        && NoAddedAfter(init, k);
      assert files[k] == init[k];
      forall j | k < j < |files|
        ensures !IsAddedIcon(files[j])
      {
        if j < n { assert files[j] == init[j]; }
      }
      assert NoAddedAfter(files, k);
    }
  }

  /** A pull request renames only when it both deletes and adds an icon
      file, and the new slug comes from an added icon path. */
  lemma RenamedToSpec(files: seq<FileChange>)
    ensures RenamedTo(files).Some? <==> ContainsDeleted(files) && ContainsAdded(files)
    ensures RenamedTo(files).Some? ==>
      exists k :: 0 <= k < |files| && IsAddedIcon(files[k])
        && RenamedTo(files).value == SlugOf(files[k].path)
  {
    LastAddedSlugIs(files);
  }

  /** The fields every record of pull request `pr` in milestone `m` shares;
      the slug is filled in per deleted file. */
  function Template(m: Milestone, pr: PullRequest): IconDeprecation
  {
    IconDeprecation("", AtVersion(m.title), m.number, m.dueOn, pr.number, RenamedTo(pr.files))
  }

  /** `r` is the record that deleted icon file `k` of `pr` produces. */
  predicate ProducedAt(r: IconDeprecation, m: Milestone, pr: PullRequest, k: int)
  {
    0 <= k < |pr.files| && IsDeletedIcon(pr.files[k])
    && r == Template(m, pr).(slug := SlugOf(pr.files[k].path))
  }

  /** The records the second file loop of one pull request offers from
      its first `n` files, in file order, before the slug check. */
  function FileRecords(m: Milestone, pr: PullRequest, n: nat): (r: seq<IconDeprecation>)
    requires n <= |pr.files|
    ensures |r| <= n
  {
    if n == 0 then []
    else
      var prev := FileRecords(m, pr, n - 1);
      var f := pr.files[n - 1];
      if IsDeletedIcon(f) then prev + [Template(m, pr).(slug := SlugOf(f.path))] else prev
  }

  /** The records offered by the first `n` pull requests of milestone `m`. */
  function PrRecords(m: Milestone, n: nat): seq<IconDeprecation>
    requires n <= |m.pullRequests|
  {
    if n == 0 then []
    else
      var pr := m.pullRequests[n - 1];
      PrRecords(m, n - 1) + FileRecords(m, pr, |pr.files|)
  }

  /** The records offered by the first `n` milestones, in loop order. */
  function Candidates(ms: seq<Milestone>, n: nat): seq<IconDeprecation>
    requires n <= |ms|
  {
    if n == 0 then []
    else
      var m := ms[n - 1];
      Candidates(ms, n - 1) + PrRecords(m, |m.pullRequests|)
  }

  /** `r` comes from one of the first `n` files of `pr`. */
  ghost predicate FromFiles(r: IconDeprecation, m: Milestone, pr: PullRequest, n: int)
  {
    exists k :: 0 <= k < n && ProducedAt(r, m, pr, k)
  }

  /** `r` comes from one of the first `n` pull requests of `m`. */
  ghost predicate FromPullRequests(r: IconDeprecation, m: Milestone, n: int)
    requires n <= |m.pullRequests|
  {
    exists j :: 0 <= j < n && FromFiles(r, m, m.pullRequests[j], |m.pullRequests[j].files|)
  }

  /** `r` comes from one of the first `n` milestones. */
  ghost predicate FromMilestones(r: IconDeprecation, ms: seq<Milestone>, n: int)
    requires n <= |ms|
  {
    exists l :: 0 <= l < n && FromPullRequests(r, ms[l], |ms[l].pullRequests|)
  }

  /** Each record offered by a pull request is what one of its deleted icon
      files produces. */
  lemma {:induction false} FileRecordsProduced(m: Milestone, pr: PullRequest, n: nat)
    requires n <= |pr.files|
    ensures forall i :: 0 <= i < |FileRecords(m, pr, n)| ==> FromFiles(FileRecords(m, pr, n)[i], m, pr, n)
  {
    if n > 0 {
      FileRecordsProduced(m, pr, n - 1);
      var prev := FileRecords(m, pr, n - 1);
      var r := FileRecords(m, pr, n);
      forall i | 0 <= i < |r|
        ensures FromFiles(r[i], m, pr, n)
      {
        if i < |prev| {
          assert r[i] == prev[i];
          assert FromFiles(prev[i], m, pr, n - 1);
          var k :| 0 <= k < n - 1 && ProducedAt(prev[i], m, pr, k);
          assert ProducedAt(r[i], m, pr, k);
        } else {
          assert ProducedAt(r[i], m, pr, n - 1);
        }
      }
    }
  }

  /** Each record offered by a milestone's pull requests is produced by a
      deleted icon file of one of them. */
  lemma {:induction false} PrRecordsProduced(m: Milestone, n: nat)
    requires n <= |m.pullRequests|
    ensures forall i :: 0 <= i < |PrRecords(m, n)| ==> FromPullRequests(PrRecords(m, n)[i], m, n)
  {
    if n > 0 {
      PrRecordsProduced(m, n - 1);
      var pr := m.pullRequests[n - 1];
      FileRecordsProduced(m, pr, |pr.files|);
      var prev := PrRecords(m, n - 1);
      var recs := FileRecords(m, pr, |pr.files|);
      var r := PrRecords(m, n);
      forall i | 0 <= i < |r|
        ensures FromPullRequests(r[i], m, n)
      {
        if i < |prev| {
          assert r[i] == prev[i];
          assert FromPullRequests(prev[i], m, n - 1);
          var j :| 0 <= j < n - 1 && FromFiles(prev[i], m, m.pullRequests[j], |m.pullRequests[j].files|);
          assert FromFiles(r[i], m, m.pullRequests[j], |m.pullRequests[j].files|);
        } else {
          assert r[i] == recs[i - |prev|];
          assert FromFiles(r[i], m, m.pullRequests[n - 1], |pr.files|);
        }
      }
    }
  }

  /** Each candidate is produced by a deleted icon file of one of the
      pull requests of one of the milestones. */
  lemma {:induction false} CandidatesProduced(ms: seq<Milestone>, n: nat)
    requires n <= |ms|
    ensures forall i :: 0 <= i < |Candidates(ms, n)| ==> FromMilestones(Candidates(ms, n)[i], ms, n)
  {
    if n > 0 {
      CandidatesProduced(ms, n - 1);
      var m := ms[n - 1];
      PrRecordsProduced(m, |m.pullRequests|);
      var prev := Candidates(ms, n - 1);
      var recs := PrRecords(m, |m.pullRequests|);
      var r := Candidates(ms, n);
      forall i | 0 <= i < |r|
        ensures FromMilestones(r[i], ms, n)
      {
        if i < |prev| {
          assert r[i] == prev[i];
          assert FromMilestones(prev[i], ms, n - 1);
          var l :| 0 <= l < n - 1 && FromPullRequests(prev[i], ms[l], |ms[l].pullRequests|);
          assert FromPullRequests(r[i], ms[l], |ms[l].pullRequests|);
        } else {
          assert r[i] == recs[i - |prev|];
          assert FromPullRequests(r[i], ms[n - 1], |m.pullRequests|);
        }
      }
    }
  }

  /** Conversely, each deleted icon file among the first `n` files of a
      pull request offers its record. */
  lemma {:induction false} FileRecordsComplete(m: Milestone, pr: PullRequest, n: nat)
    requires n <= |pr.files|
    ensures forall r, k :: 0 <= k < n && ProducedAt(r, m, pr, k) ==> r in FileRecords(m, pr, n)
  {
    if n > 0 {
      FileRecordsComplete(m, pr, n - 1);
      forall r, k | 0 <= k < n && ProducedAt(r, m, pr, k)
        ensures r in FileRecords(m, pr, n)
      {
        if k < n - 1 {
          assert r in FileRecords(m, pr, n - 1);
        }
      }
    }
  }

  /** Each deleted icon file of the first `n` pull requests of a
      milestone offers its record. */
  lemma {:induction false} PrRecordsComplete(m: Milestone, n: nat)
    requires n <= |m.pullRequests|
    ensures forall r, j, k :: 0 <= j < n && ProducedAt(r, m, m.pullRequests[j], k) ==> r in PrRecords(m, n)
  {
    if n > 0 {
      PrRecordsComplete(m, n - 1);
      var pr := m.pullRequests[n - 1];
      FileRecordsComplete(m, pr, |pr.files|);
      forall r, j, k | 0 <= j < n && ProducedAt(r, m, m.pullRequests[j], k)
        ensures r in PrRecords(m, n)
      {
        if j < n - 1 {
          assert r in PrRecords(m, n - 1);
        } else {
          assert r in FileRecords(m, pr, |pr.files|);
        }
      }
    }
  }

  /** Each deleted icon file of each pull request of the first `n`
      milestones offers its record. */
  lemma {:induction false} CandidatesComplete(ms: seq<Milestone>, n: nat)
    requires n <= |ms|
    ensures forall r, l, j, k ::
      (0 <= l < n && 0 <= j < |ms[l].pullRequests| && ProducedAt(r, ms[l], ms[l].pullRequests[j], k))
      ==> r in Candidates(ms, n)
  {
    if n > 0 {
      CandidatesComplete(ms, n - 1);
      var m := ms[n - 1];
      PrRecordsComplete(m, |m.pullRequests|);
      forall r, l, j, k | 0 <= l < n && 0 <= j < |ms[l].pullRequests|
        && ProducedAt(r, ms[l], ms[l].pullRequests[j], k)
        ensures r in Candidates(ms, n)
      {
        if l < n - 1 {
          assert r in Candidates(ms, n - 1);
        } else {
          assert r in PrRecords(m, |m.pullRequests|);
        }
      }
    }
  }

  predicate HasSlug(rs: seq<IconDeprecation>, slug: string)
  {
    exists i :: 0 <= i < |rs| && rs[i].slug == slug
  }

  /** `if !deprecated_icons.contains(&icon) { push }`. `IconDeprecation`
      implements `PartialEq` by slug alone, so `contains` asks whether a
      record with the same slug is already listed. */
  function AddUnique(rs: seq<IconDeprecation>, x: IconDeprecation): seq<IconDeprecation>
  {
    if HasSlug(rs, x.slug) then rs else rs + [x]
  }

  /** The list after offering every candidate in turn. */
  function Dedup(cands: seq<IconDeprecation>): seq<IconDeprecation>
  {
    if cands == [] then []
    else AddUnique(Dedup(cands[..|cands| - 1]), cands[|cands| - 1])
  }

  /** The first candidate with a given slug. */
  function FirstWithSlug(cands: seq<IconDeprecation>, slug: string): Option<IconDeprecation>
  {
    if cands == [] then None
    else
      var f := FirstWithSlug(cands[..|cands| - 1], slug);
      if f.Some? then f
      else if cands[|cands| - 1].slug == slug then Some(cands[|cands| - 1])
      else None
  }

  /** The deduplicated list holds one record per slug offered, and that
      record is the first candidate with its slug. */
  lemma {:induction false} DedupSpec(cands: seq<IconDeprecation>)
    ensures forall i, j :: 0 <= i < j < |Dedup(cands)| ==> Dedup(cands)[i].slug != Dedup(cands)[j].slug
    ensures forall s :: HasSlug(Dedup(cands), s) <==> FirstWithSlug(cands, s).Some?
    ensures forall i :: 0 <= i < |Dedup(cands)| ==>
      FirstWithSlug(cands, Dedup(cands)[i].slug) == Some(Dedup(cands)[i])
  {
    if cands != [] {
      var init := cands[..|cands| - 1];
      var x := cands[|cands| - 1];
      DedupSpec(init);
      var prev := Dedup(init);
      if !HasSlug(prev, x.slug) {
        var r := prev + [x];
        assert FirstWithSlug(init, x.slug).None?;
        forall s | HasSlug(r, s)
          ensures FirstWithSlug(cands, s).Some?
        {
          var i :| 0 <= i < |r| && r[i].slug == s;
          if i < |prev| { assert HasSlug(prev, s); }
        }
        forall s | FirstWithSlug(cands, s).Some?
          ensures HasSlug(r, s)
        {
          if FirstWithSlug(init, s).Some? {
            var i :| 0 <= i < |prev| && prev[i].slug == s;
            assert r[i].slug == s;
          } else {
            assert r[|prev|].slug == s;
          }
        }
        forall i | 0 <= i < |r|
          ensures FirstWithSlug(cands, r[i].slug) == Some(r[i])
        {
          if i < |prev| {
            assert r[i] == prev[i];
          }
        }
        forall i, j | 0 <= i < j < |r|
          ensures r[i].slug != r[j].slug
        {
          if j == |prev| {
            assert r[i] == prev[i];
          }
        }
      } else {
        forall s ensures HasSlug(prev, s) <==> FirstWithSlug(cands, s).Some? {
        }
      }
    }
  }

  /** Every deduplicated record is one of the candidates. */
  lemma {:induction false} DedupFromCandidates(cands: seq<IconDeprecation>)
    ensures forall i :: 0 <= i < |Dedup(cands)| ==> Dedup(cands)[i] in cands
  {
    if cands != [] {
      var init := cands[..|cands| - 1];
      DedupFromCandidates(init);
      forall i | 0 <= i < |Dedup(cands)|
        ensures Dedup(cands)[i] in cands
      {
        if i < |Dedup(init)| {
          assert Dedup(cands)[i] == Dedup(init)[i];
          assert Dedup(init)[i] in init;
        }
      }
    }
  }

  /** What `fetch_deprecated_simple_icons` returns for parsed milestones. */
  function Deprecations(ms: seq<Milestone>): seq<IconDeprecation>
  {
    Dedup(Candidates(ms, |ms|))
  }

  /** No two records share a slug, every candidate's slug is there, and
      each record is the first candidate with its slug. */
  lemma DeprecationsUnique(ms: seq<Milestone>)
    ensures var r := Deprecations(ms);
      forall i, j :: 0 <= i < j < |r| ==> r[i].slug != r[j].slug
    ensures var r, c := Deprecations(ms), Candidates(ms, |ms|);
      (forall s :: HasSlug(r, s) <==> HasSlug(c, s))
      && forall i :: 0 <= i < |r| ==> FirstWithSlug(c, r[i].slug) == Some(r[i])
  {
    var c := Candidates(ms, |ms|);
    DedupSpec(c);
    FirstWithSlugFound(c);
  }

  /** Every slug some deleted icon file of some pull request offers is
      listed. */
  lemma DeprecationsComplete(ms: seq<Milestone>)
    ensures forall l, j, k ::
      (0 <= l < |ms| && 0 <= j < |ms[l].pullRequests|
       && 0 <= k < |ms[l].pullRequests[j].files| && IsDeletedIcon(ms[l].pullRequests[j].files[k]))
      ==> HasSlug(Deprecations(ms), SlugOf(ms[l].pullRequests[j].files[k].path))
  {
    var c := Candidates(ms, |ms|);
    CandidatesComplete(ms, |ms|);
    DeprecationsUnique(ms);
    forall l, j, k | 0 <= l < |ms| && 0 <= j < |ms[l].pullRequests|
      && 0 <= k < |ms[l].pullRequests[j].files| && IsDeletedIcon(ms[l].pullRequests[j].files[k])
      ensures HasSlug(Deprecations(ms), SlugOf(ms[l].pullRequests[j].files[k].path))
    {
      var m, pr := ms[l], ms[l].pullRequests[j];
      var r := Template(m, pr).(slug := SlugOf(pr.files[k].path));
      assert ProducedAt(r, m, pr, k);
      assert r in c;
      var i :| 0 <= i < |c| && c[i] == r;
      assert HasSlug(c, r.slug);
    }
  }

  /** Every record is what a deleted file under "icons/" with the ".svg"
      extension produces, with its milestone's version, number and due
      date and its pull request's number and new slug. */
  lemma DeprecationsProduced(ms: seq<Milestone>)
    ensures forall i :: 0 <= i < |Deprecations(ms)| ==> FromMilestones(Deprecations(ms)[i], ms, |ms|)
  {
    var c := Candidates(ms, |ms|);
    DedupFromCandidates(c);
    CandidatesProduced(ms, |ms|);
    var r := Dedup(c);
    forall i | 0 <= i < |r|
      ensures FromMilestones(r[i], ms, |ms|)
    {
      assert r[i] in c;
      var t :| 0 <= t < |c| && c[t] == r[i];
    }
  }

  /** A slug has a first candidate exactly when some candidate carries it. */
  lemma {:induction false} FirstWithSlugFound(cands: seq<IconDeprecation>)
    ensures forall s :: FirstWithSlug(cands, s).Some? <==> HasSlug(cands, s)
  {
    if cands != [] {
      var init := cands[..|cands| - 1];
      FirstWithSlugFound(init);
      forall s ensures FirstWithSlug(cands, s).Some? <==> HasSlug(cands, s) {
        if HasSlug(init, s) {
          var i :| 0 <= i < |init| && init[i].slug == s;
          assert cands[i].slug == s;
        }
        if HasSlug(cands, s) && !HasSlug(init, s) {
          var i :| 0 <= i < |cands| && cands[i].slug == s;
        }
      }
    }
  }

  /** The slug of a regular icon path is the file name without its
      extension. */
  lemma IconPathSlug(name: string)
    requires '/' !in name && '.' !in name
    ensures IsIconFile("icons/" + name + ".svg")
    ensures SlugOf("icons/" + name + ".svg") == name
  {
    var path := "icons/" + name + ".svg";
    assert path[..6] == "icons/";
    assert path[|path| - 4..] == ".svg";
    var rest := name + ".svg";
    assert path[6..] == rest;
    forall i: nat | i <= |rest|
      ensures !OccursAt(rest, "icons/", i)
    {
      if i + 6 <= |rest| {
        assert rest[i..i + 6][5] == rest[i + 5];
        if i + 5 < |name| {
          assert rest[i + 5] == name[i + 5];
        } else {
          assert rest[i + 5] == ".svg"[i + 5 - |name|];
        }
      }
    }
    assert ReplaceAll(path, "icons/", "") == ReplaceAll(rest, "icons/", "");
    ReplaceAbsent(rest, "icons/", "");
    SuffixRemoved(name, ".svg");
  }

  /** Replacing a suffix whose first character never occurs before it
      removes exactly that suffix. */
  lemma {:induction false} SuffixRemoved(a: string, p: string)
    requires |p| > 0 && p[0] !in a
    ensures ReplaceAll(a + p, p, "") == a
  {
    if a == [] {
      assert a + p == p;
      assert (a + p)[|p|..] == [];
    } else {
      assert (a + p)[..|p|][0] == a[0];
      assert (a + p)[1..] == a[1..] + p;
      SuffixRemoved(a[1..], p);
    }
  }

  /** The first file loop of a pull request: whether it deletes an icon
      file, and the slug of the last icon file it adds. */
  method ScanPullRequestFiles(files: seq<FileChange>)
    returns (newSlug: Option<string>, containsDeletedIcon: bool)
    ensures newSlug == LastAddedSlug(files)
    ensures containsDeletedIcon == ContainsDeleted(files)
  {
    newSlug, containsDeletedIcon := None, false;
    var k := 0;
    while k < |files|
      invariant 0 <= k <= |files|
      invariant newSlug == LastAddedSlug(files[..k])
      invariant containsDeletedIcon == ContainsDeleted(files[..k])
    {
      var f := files[k];
      assert files[..k + 1][..k] == files[..k];
      assert files[..k + 1][k] == f;
      if IsIconFile(f.path) {
        if f.changeType == "DELETED" {
          containsDeletedIcon := true;
        } else if f.changeType == "ADDED" {
          newSlug := Some(SlugOf(f.path));
        }
      }
      assert ContainsDeleted(files[..k + 1]) == (ContainsDeleted(files[..k]) || IsDeletedIcon(f)) by {
        if ContainsDeleted(files[..k]) {
          var t :| 0 <= t < k && IsDeletedIcon(files[..k][t]);
          assert files[..k + 1][t] == files[..k][t];
        }
        if ContainsDeleted(files[..k + 1]) {
          var t :| 0 <= t < k + 1 && IsDeletedIcon(files[..k + 1][t]);
          if t < k { assert IsDeletedIcon(files[..k][t]); }
        }
      }
      k := k + 1;
    }
    assert files[..|files|] == files;
  }

  /** The second file loop of a pull request: each deleted icon file
      offers a record, kept unless one with its slug is already listed.
      `offered` is every record offered so far, kept or not. */
  method OfferPullRequestRecords(icons: seq<IconDeprecation>, ghost offered: seq<IconDeprecation>,
                                 m: Milestone, pr: PullRequest, template: IconDeprecation)
    returns (icons': seq<IconDeprecation>, ghost offered': seq<IconDeprecation>)
    requires icons == Dedup(offered)
    requires template == Template(m, pr)
    ensures offered' == offered + FileRecords(m, pr, |pr.files|)
    ensures icons' == Dedup(offered')
  {
    icons', offered' := icons, offered;
    var files := pr.files;
    var k := 0;
    while k < |files|
      invariant 0 <= k <= |files|
      invariant offered' == offered + FileRecords(m, pr, k)
      invariant icons' == Dedup(offered')
    {
      var f := files[k];
      if IsIconFile(f.path) && f.changeType == "DELETED" {
        var icon := template.(slug := SlugOf(f.path));
        assert (offered' + [icon])[..|offered'|] == offered';
        if !HasSlug(icons', icon.slug) {
          icons' := icons' + [icon];
        }
        offered' := offered' + [icon];
      }
      k := k + 1;
    }
  }

  /** The pull request loop of one milestone. */
  method OfferMilestoneRecords(icons: seq<IconDeprecation>, ghost offered: seq<IconDeprecation>,
                               m: Milestone)
    returns (icons': seq<IconDeprecation>, ghost offered': seq<IconDeprecation>)
    requires icons == Dedup(offered)
    ensures offered' == offered + PrRecords(m, |m.pullRequests|)
    ensures icons' == Dedup(offered')
  {
    icons', offered' := icons, offered;
    var atVersion := AtVersion(m.title);
    var p := 0;
    while p < |m.pullRequests|
      invariant 0 <= p <= |m.pullRequests|
      invariant offered' == offered + PrRecords(m, p)
      invariant icons' == Dedup(offered')
    {
      var pr := m.pullRequests[p];
      var template := PullRequestTemplate(m, atVersion, pr);
      icons', offered' := OfferPullRequestRecords(icons', offered', m, pr, template);
      PrRecordsStep(m, p, offered);
      p := p + 1;
    }
  }

  /** The fields shared by the records of one pull request, from the first
      file loop. */
  method PullRequestTemplate(m: Milestone, atVersion: string, pr: PullRequest)
    returns (template: IconDeprecation)
    requires atVersion == AtVersion(m.title)
    ensures template == Template(m, pr)
  {
    var newSlug, containsDeletedIcon := ScanPullRequestFiles(pr.files);
    template := IconDeprecation("", atVersion, m.number, m.dueOn, pr.number,
                                if containsDeletedIcon && newSlug.Some? then newSlug else None);
  }

  lemma PrRecordsStep(m: Milestone, p: nat, offered: seq<IconDeprecation>)
    requires p < |m.pullRequests|
    ensures offered + PrRecords(m, p + 1)
            == offered + PrRecords(m, p) + FileRecords(m, m.pullRequests[p], |m.pullRequests[p].files|)
  {
    assert PrRecords(m, p + 1)
        == PrRecords(m, p) + FileRecords(m, m.pullRequests[p], |m.pullRequests[p].files|);
  }

  /** `fetch_deprecated_simple_icons`, from the parsed milestones on. */
  method FetchDeprecated(ms: seq<Milestone>) returns (icons: seq<IconDeprecation>)
    ensures icons == Deprecations(ms)
  {
    icons := [];
    ghost var offered: seq<IconDeprecation> := [];
    var l := 0;
    while l < |ms|
      invariant 0 <= l <= |ms|
      invariant offered == Candidates(ms, l)
      invariant icons == Dedup(offered)
    {
      icons, offered := OfferMilestoneRecords(icons, offered, ms[l]);
      l := l + 1;
    }
  }

  /** A pull request that deletes "icons/old.svg" and adds "icons/new.svg"
      renames the icon: one record, slug "old", new slug "new". */
  lemma RenameRecord(m: Milestone, number: nat)
    ensures var pr := PullRequest(number, [FileChange("icons/old.svg", "DELETED"),
                                           FileChange("icons/new.svg", "ADDED")]);
      FileRecords(m, pr, 2) == [Template(m, pr).(slug := "old")]
      && RenamedTo(pr.files) == Some("new")
  {
    var deleted, added := FileChange("icons/old.svg", "DELETED"), FileChange("icons/new.svg", "ADDED");
    var pr := PullRequest(number, [deleted, added]);
    ExampleFiles();
    assert FileRecords(m, pr, 1) == [Template(m, pr).(slug := "old")];
    assert FileRecords(m, pr, 2) == FileRecords(m, pr, 1);
    assert LastAddedSlug(pr.files) == Some("new");
    assert 0 <= 0 < |pr.files| && IsDeletedIcon(pr.files[0]);
  }

  /** The two file changes of the example above. */
  lemma ExampleFiles()
    ensures IsDeletedIcon(FileChange("icons/old.svg", "DELETED"))
    ensures SlugOf("icons/old.svg") == "old"
    ensures IsAddedIcon(FileChange("icons/new.svg", "ADDED"))
    ensures !IsDeletedIcon(FileChange("icons/new.svg", "ADDED"))
    ensures SlugOf("icons/new.svg") == "new"
  {
    IconPathSlug("old");
    IconPathSlug("new");
    assert "icons/" + "old" + ".svg" == "icons/old.svg";
    assert "icons/" + "new" + ".svg" == "icons/new.svg";
  }

  /** A second pull request deleting an already listed icon adds nothing:
      the record of the first one stays. */
  lemma SecondRemovalIgnored(first: IconDeprecation, second: IconDeprecation)
    requires first.slug == second.slug
    ensures Dedup([first, second]) == [first]
  {
    assert [first, second][..1] == [first];
    assert [first][..0] == [];
    assert Dedup([first]) == AddUnique([], first) == [first];
    assert HasSlug([first], second.slug) by { assert [first][0].slug == second.slug; }
    assert Dedup([first, second]) == AddUnique(Dedup([first]), second);
  }
}
