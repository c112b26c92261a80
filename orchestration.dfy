/** `Find` of internal/finder/finder.go: resolve every repository spec, drop
    repeated repositories, search each one, and fail only when every search
    failed. The searches run one after another here, in repository order. */
module Orchestration {
  import opened Results
  import opened Seqs
  import opened Types
  import opened Client
  import opened Finder

  datatype FindError =
    | InvalidSpec(spec: string)
    | ListError(cause: ClientError)
    | AllFailed(count: nat)

  /** One line of standard output: a repository and a path in it. */
  datatype Match = Match(repo: Repository, path: string)

  // ---------------------------------------------------------------- resolving

  /** The repositories one spec stands for, with the warnings it caused. */
  datatype Resolved = Resolved(repos: seq<Repository>, warnings: seq<Warning>)

  /** One spec: a malformed spec and a failed listing abort the search; a named
      repository that cannot be fetched (or is empty) is skipped with a
      warning. */
  function ResolveSpec(spec: string, types: RepoTypes, t: Transport): Result<Resolved, FindError>
  {
    match ParseRepoSpec(spec)
    case Err(_) => Err(InvalidSpec(spec))
    case Ok(RepoSpec(owner, repo)) =>
      if repo != "" then
        match GetRepo(owner, repo, t)
        case Err(e) => Ok(Resolved([], [SpecSkipped(owner, repo, e)]))
        case Ok(found) => Ok(Resolved([found], []))
      else
        match ListReposResult(owner, types, t)
        case Err(e) => Err(ListError(e))
        case Ok(all) => Ok(Resolved(all, []))
  }

  /** The outcomes of one spec: an abort exactly for a malformed spec or a
      failed listing of an owner; a named repository yields either itself or
      one warning. */
  lemma ResolveSpecMeaning(spec: string, types: RepoTypes, t: Transport)
    ensures var r := ResolveSpec(spec, types, t);
      && (r.Err? <==> (ParseRepoSpec(spec).Err? ||
        (ParseRepoSpec(spec).value.repo == "" && ListReposResult(ParseRepoSpec(spec).value.owner, types, t).Err?)))
      && (r.Ok? && ParseRepoSpec(spec).value.repo != "" ==>
        |r.value.repos| + |r.value.warnings| == 1 &&
        (r.value.repos == [] <==> GetRepo(ParseRepoSpec(spec).value.owner, ParseRepoSpec(spec).value.repo, t).Err?))
      && (r.Ok? && ParseRepoSpec(spec).value.repo == "" ==> r.value == Resolved(ListReposResult(ParseRepoSpec(spec).value.owner, types, t).value, []))
  {
  }

  /** The specs resolved in order, up to the first one that aborts. */
  datatype Resolution = Resolution(repos: seq<Repository>, warnings: seq<Warning>, failure: Option<FindError>)

  /** `ResolveSpec` for the given listing filter and transport. */
  function Resolver(types: RepoTypes, t: Transport): string -> Result<Resolved, FindError>
  {
    spec => ResolveSpec(spec, types, t)
  }

  function ResolveAll(specs: seq<string>, resolve: string -> Result<Resolved, FindError>): Resolution
  {
    if specs == [] then Resolution([], [], None)
    else
      var before := ResolveAll(specs[..|specs| - 1], resolve);
      if before.failure.Some? then before
      else
        match resolve(specs[|specs| - 1])
        case Err(e) => before.(failure := Some(e))
        case Ok(one) => Resolution(before.repos + one.repos, before.warnings + one.warnings, None)
  }

  /** Once a spec has aborted, later specs change nothing. */
  lemma {:induction false} ResolveAllStops(specs: seq<string>, j: nat, resolve: string -> Result<Resolved, FindError>)
    requires j <= |specs|
    requires ResolveAll(specs[..j], resolve).failure.Some?
    ensures ResolveAll(specs, resolve) == ResolveAll(specs[..j], resolve)
    decreases |specs| - j
  {
    if j < |specs| {
      assert specs[..|specs| - 1][..j] == specs[..j];
      ResolveAllStops(specs[..|specs| - 1], j, resolve);
    } else {
      assert specs[..j] == specs;
    }
  }

  /** Resolution succeeds exactly when every spec resolves on its own. */
  lemma {:induction false} ResolveAllSucceeds(specs: seq<string>, resolve: string -> Result<Resolved, FindError>)
    ensures ResolveAll(specs, resolve).failure.None? <==> forall k :: 0 <= k < |specs| ==> resolve(specs[k]).Ok?
  {
    if specs != [] {
      var init := specs[..|specs| - 1];
      ResolveAllSucceeds(init, resolve);
      assert forall k :: 0 <= k < |init| ==> init[k] == specs[k];
    }
  }

  /** Every resolved repository comes from one of the specs: it is the named
      repository or one of the owner's listed repositories. */
  lemma {:induction false} ResolvedReposHaveASpec(specs: seq<string>, resolve: string -> Result<Resolved, FindError>)
    ensures forall repo :: repo in ResolveAll(specs, resolve).repos ==>
      exists k :: 0 <= k < |specs| && resolve(specs[k]).Ok? && repo in resolve(specs[k]).value.repos
  {
    if specs != [] {
      var init := specs[..|specs| - 1];
      ResolvedReposHaveASpec(init, resolve);
      assert forall k :: 0 <= k < |init| ==> init[k] == specs[k];
    }
  }

  /** The spec loop of `Find`: stop at the first spec that aborts. */
  method ResolveSpecs(specs: seq<string>, types: RepoTypes, t: Transport) returns (r: Resolution)
    ensures r == ResolveAll(specs, Resolver(types, t))
  {
    r := Resolution([], [], None);
    var i := 0;
    while i < |specs|
      invariant 0 <= i <= |specs|
      invariant r == ResolveAll(specs[..i], Resolver(types, t))
      invariant r.failure.None?
    {
      assert specs[..i + 1][..i] == specs[..i];
      var parsed := ParseRepoSpec(specs[i]);
      if parsed.Err? {
        r := r.(failure := Some(InvalidSpec(specs[i])));
        ResolveAllStops(specs, i + 1, Resolver(types, t));
        return;
      }
      var owner := parsed.value.owner;
      var repo := parsed.value.repo;
      if repo != "" {
        var found := GetRepo(owner, repo, t);
        if found.Err? {
          r := r.(warnings := r.warnings + [SpecSkipped(owner, repo, found.error)]);
        } else {
          r := r.(repos := r.repos + [found.value]);
          assert r.warnings + [] == r.warnings;
        }
      } else {
        var listed := ListRepos(owner, types, t);
        if listed.Err? {
          r := r.(failure := Some(ListError(listed.error)));
          ResolveAllStops(specs, i + 1, Resolver(types, t));
          return;
        }
        r := r.(repos := r.repos + listed.value);
        assert r.warnings + [] == r.warnings;
      }
      i := i + 1;
    }
    assert specs[..i] == specs;
  }

  // ----------------------------------------------------------- deduplication

  function FullNames(repos: seq<Repository>): set<string>
  {
    set r | r in repos :: r.fullName
  }

  /** First-seen deduplication by full name. */
  function Dedup(repos: seq<Repository>): seq<Repository>
  {
    if repos == [] then []
    else
      var kept := Dedup(repos[..|repos| - 1]);
      var last := repos[|repos| - 1];
      if last.fullName in FullNames(kept) then kept else kept + [last]
  }

  predicate DistinctNames(repos: seq<Repository>)
  {
    forall i, j :: 0 <= i < j < |repos| ==> repos[i].fullName != repos[j].fullName
  }

  /** The dedup loop: a set of seen names beside the kept list. */
  method DedupRepos(all: seq<Repository>) returns (repos: seq<Repository>)
    ensures repos == Dedup(all)
  {
    var seen: set<string> := {};
    repos := [];
    var i := 0;
    while i < |all|
      invariant 0 <= i <= |all|
      invariant repos == Dedup(all[..i])
      invariant seen == FullNames(repos)
    {
      assert all[..i + 1][..i] == all[..i];
      var repo := all[i];
      if repo.fullName !in seen {
        seen := seen + {repo.fullName};
        repos := repos + [repo];
      }
      i := i + 1;
    }
    assert all[..i] == all;
  }

  /** The kept list has no repeated name, loses no name, keeps repositories
      unmodified and in input order, and keeps the first repository of each
      name. */
  lemma DedupFacts(repos: seq<Repository>)
    ensures DistinctNames(Dedup(repos))
    ensures FullNames(Dedup(repos)) == FullNames(repos)
    ensures IsSubsequence(Dedup(repos), repos)
    ensures forall k :: 0 <= k < |repos| && (forall j :: 0 <= j < k ==> repos[j].fullName != repos[k].fullName) ==>
      repos[k] in Dedup(repos)
  {
    DedupNames(repos);
    DedupDistinct(repos);
    DedupSubsequence(repos);
    DedupKeepsFirst(repos);
  }

  lemma {:induction false} DedupNames(repos: seq<Repository>)
    ensures FullNames(Dedup(repos)) == FullNames(repos)
  {
    if repos != [] {
      var init := repos[..|repos| - 1];
      var last := repos[|repos| - 1];
      DedupNames(init);
      var kept := Dedup(init);
      assert repos == init + [last];
      assert FullNames(repos) == FullNames(init) + {last.fullName};
      assert FullNames(kept + [last]) == FullNames(kept) + {last.fullName};
    }
  }

  lemma {:induction false} DedupDistinct(repos: seq<Repository>)
    ensures DistinctNames(Dedup(repos))
  {
    if repos != [] {
      var init := repos[..|repos| - 1];
      var last := repos[|repos| - 1];
      DedupDistinct(init);
      var kept := Dedup(init);
      if last.fullName !in FullNames(kept) {
        var r := kept + [last];
        forall i, j | 0 <= i < j < |r|
          ensures r[i].fullName != r[j].fullName
        {
          if j == |kept| {
            assert r[i] == kept[i];
            assert kept[i] in kept;
          }
        }
      }
    }
  }

  lemma {:induction false} DedupSubsequence(repos: seq<Repository>)
    ensures IsSubsequence(Dedup(repos), repos)
  {
    if repos == [] {
      SubsequenceEmpty(repos);
    } else {
      var init := repos[..|repos| - 1];
      var last := repos[|repos| - 1];
      DedupSubsequence(init);
      assert repos == init + [last];
      SubsequenceSnoc(Dedup(init), init, last);
    }
  }

  lemma {:induction false} DedupKeepsFirst(repos: seq<Repository>)
    ensures forall k :: 0 <= k < |repos| && (forall j :: 0 <= j < k ==> repos[j].fullName != repos[k].fullName) ==>
      repos[k] in Dedup(repos)
  {
    if repos != [] {
      var init := repos[..|repos| - 1];
      var last := repos[|repos| - 1];
      DedupKeepsFirst(init);
      DedupNames(init);
      var kept := Dedup(init);
      forall k | 0 <= k < |repos| && (forall j :: 0 <= j < k ==> repos[j].fullName != repos[k].fullName)
        ensures repos[k] in Dedup(repos)
      {
        if k < |init| {
          assert init[k] == repos[k];
          assert forall j :: 0 <= j < k ==> init[j] == repos[j];
        } else {
          assert last.fullName !in FullNames(init);
        }
      }
    }
  }

  // --------------------------------------------------------------- searching

  /** What the searches write, and how many of them failed. */
  datatype Tally = Tally(warnings: seq<Warning>, matches: seq<Match>, errors: nat)

  function MatchesOf(repo: Repository, entries: seq<TreeEntry>): (r: seq<Match>)
    ensures |r| == |entries|
    ensures forall i :: 0 <= i < |r| ==> r[i] == Match(repo, entries[i].path)
  {
    if entries == [] then [] else [Match(repo, entries[0].path)] + MatchesOf(repo, entries[1..])
  }

  /** The repositories searched in order; a failed search is counted and
      reported after any truncation warning of that repository. */
  function SearchAll(repos: seq<Repository>, opts: Options, m: Matcher, t: Transport): Tally
  {
    if repos == [] then Tally([], [], 0)
    else
      var before := SearchAll(repos[..|repos| - 1], opts, m, t);
      var repo := repos[|repos| - 1];
      var warned := before.warnings + TruncationWarnings(repo, t);
      match Search(repo, opts, m, t)
      case Err(e) => Tally(warned + [SearchFailed(repo.fullName, e)], before.matches, before.errors + 1)
      case Ok(found) => Tally(warned, before.matches + MatchesOf(repo, found), before.errors)
  }

  /** The failure count never exceeds the number of repositories, and reaches
      it exactly when every search failed. */
  lemma {:induction false} SearchAllErrors(repos: seq<Repository>, opts: Options, m: Matcher, t: Transport)
    ensures SearchAll(repos, opts, m, t).errors <= |repos|
    ensures SearchAll(repos, opts, m, t).errors == |repos| <==> forall i :: 0 <= i < |repos| ==> Search(repos[i], opts, m, t).Err?
  {
    if repos != [] {
      var init := repos[..|repos| - 1];
      var last := repos[|repos| - 1];
      SearchAllErrors(init, opts, m, t);
      if SearchAll(init, opts, m, t).errors < |init| {
        var i :| 0 <= i < |init| && !Search(init[i], opts, m, t).Err?;
        assert repos[i] == init[i];
      } else if Search(last, opts, m, t).Err? {
        forall i | 0 <= i < |repos|
          ensures Search(repos[i], opts, m, t).Err?
        {
          if i < |init| {
            assert repos[i] == init[i];
            assert Search(init[i], opts, m, t).Err?;
          } else {
            assert i == |repos| - 1;
          }
        }
      }
    }
  }

  /** Every printed match names a searched repository and a path its search
      found. */
  lemma {:induction false} SearchAllMatches(repos: seq<Repository>, opts: Options, m: Matcher, t: Transport)
    ensures forall x :: x in SearchAll(repos, opts, m, t).matches ==>
      x.repo in repos && Search(x.repo, opts, m, t).Ok? &&
      exists e :: e in Search(x.repo, opts, m, t).value && e.path == x.path
  {
    if repos != [] {
      var init := repos[..|repos| - 1];
      var repo := repos[|repos| - 1];
      SearchAllMatches(init, opts, m, t);
      assert forall r :: r in init ==> r in repos;
      var s := Search(repo, opts, m, t);
      if s.Ok? {
        forall x | x in MatchesOf(repo, s.value)
          ensures x.repo == repo && exists e :: e in s.value && e.path == x.path
        {
          var i :| 0 <= i < |MatchesOf(repo, s.value)| && MatchesOf(repo, s.value)[i] == x;
          assert s.value[i] in s.value;
        }
      }
    }
  }

  /** The search loop of `Find`. */
  method SearchRepos(repos: seq<Repository>, opts: Options, m: Matcher, t: Transport) returns (tally: Tally)
    ensures tally == SearchAll(repos, opts, m, t)
  {
    tally := Tally([], [], 0);
    var i := 0;
    while i < |repos|
      invariant 0 <= i <= |repos|
      invariant tally == SearchAll(repos[..i], opts, m, t)
    {
      assert repos[..i + 1][..i] == repos[..i];
      var repo := repos[i];
      var warnings, found := SearchRepo(repo, opts, m, t);
      if found.Err? {
        tally := Tally(tally.warnings + warnings + [SearchFailed(repo.fullName, found.error)], tally.matches, tally.errors + 1);
      } else {
        tally := Tally(tally.warnings + warnings, tally.matches + MatchesOf(repo, found.value), tally.errors);
      }
      i := i + 1;
    }
    assert repos[..i] == repos;
  }

  // -------------------------------------------------------------------- Find

  /** Everything `Find` writes and its verdict. */
  datatype Outcome = Outcome(warnings: seq<Warning>, matches: seq<Match>, failure: Option<FindError>)

  function FindOutcome(opts: Options, m: Matcher, t: Transport): Outcome
  {
    var resolved := ResolveAll(opts.repoSpecs, Resolver(opts.repoTypes, t));
    if resolved.failure.Some? then Outcome(resolved.warnings, [], resolved.failure)
    else
      var repos := Dedup(resolved.repos);
      if |repos| == 0 then Outcome(resolved.warnings + [NoRepositories], [], None)
      else
        var tally := SearchAll(repos, opts, m, t);
        Outcome(resolved.warnings + tally.warnings, tally.matches,
          if tally.errors == |repos| then Some(AllFailed(|repos|)) else None)
  }

  /** `Find`: resolve, deduplicate, warn when nothing is left, search, and
      report failure when every search failed. */
  method Find(opts: Options, m: Matcher, t: Transport) returns (outcome: Outcome)
    ensures outcome == FindOutcome(opts, m, t)
  {
    var resolved := ResolveSpecs(opts.repoSpecs, opts.repoTypes, t);
    if resolved.failure.Some? {
      return Outcome(resolved.warnings, [], resolved.failure);
    }
    var repos := DedupRepos(resolved.repos);
    if |repos| == 0 {
      return Outcome(resolved.warnings + [NoRepositories], [], None);
    }
    var tally := SearchRepos(repos, opts, m, t);
    var failure := None;
    if tally.errors == |repos| {
      failure := Some(AllFailed(|repos|));
    }
    outcome := Outcome(resolved.warnings + tally.warnings, tally.matches, failure);
  }

  /** `Find` fails after resolving only when there was something to search and
      every search failed; a single successful repository makes it succeed. */
  lemma FindFailsOnlyWhenAllFail(opts: Options, m: Matcher, t: Transport)
    requires ResolveAll(opts.repoSpecs, Resolver(opts.repoTypes, t)).failure.None?
    ensures var repos := Dedup(ResolveAll(opts.repoSpecs, Resolver(opts.repoTypes, t)).repos);
      FindOutcome(opts, m, t).failure.Some? <==>
        |repos| > 0 && forall i :: 0 <= i < |repos| ==> Search(repos[i], opts, m, t).Err?
  {
    var repos := Dedup(ResolveAll(opts.repoSpecs, Resolver(opts.repoTypes, t)).repos);
    SearchAllErrors(repos, opts, m, t);
  }

  /** A malformed spec anywhere aborts `Find` before any search: nothing is
      matched. */
  lemma InvalidSpecAborts(opts: Options, m: Matcher, t: Transport, k: nat)
    requires k < |opts.repoSpecs| && ParseRepoSpec(opts.repoSpecs[k]).Err?
    ensures FindOutcome(opts, m, t).failure.Some? && FindOutcome(opts, m, t).matches == []
  {
    ResolveAllSucceeds(opts.repoSpecs, Resolver(opts.repoTypes, t));
  }

  /** With a matcher that never fails, every printed match is a tree entry of
      a resolved repository meeting all five criteria, and every repository is
      searched once. */
  lemma FindMatchesAreWanted(opts: Options, m: Matcher, t: Transport)
    requires forall p, n :: m(p, n).Ok?
    ensures forall x :: x in FindOutcome(opts, m, t).matches ==>
      x.repo in ResolveAll(opts.repoSpecs, Resolver(opts.repoTypes, t)).repos &&
      GetTree(x.repo, t).Ok? &&
      exists e :: e in GetTree(x.repo, t).value.tree && Wanted(opts, m)(e) && e.path == x.path
    ensures DistinctNames(Dedup(ResolveAll(opts.repoSpecs, Resolver(opts.repoTypes, t)).repos))
  {
    var resolved := ResolveAll(opts.repoSpecs, Resolver(opts.repoTypes, t));
    var repos := Dedup(resolved.repos);
    DedupFacts(resolved.repos);
    SubsequenceMembers(repos, resolved.repos);
    SearchAllMatches(repos, opts, m, t);
    forall repo | repo in repos && Search(repo, opts, m, t).Ok?
      ensures GetTree(repo, t).Ok?
      ensures forall e :: e in Search(repo, opts, m, t).value ==> e in GetTree(repo, t).value.tree && Wanted(opts, m)(e)
    {
      SearchFindsWanted(repo, opts, m, t);
    }
  }
}
