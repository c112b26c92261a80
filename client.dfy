/** Repository resolution of internal/github/client.go: the server-side
    `type` parameter, the paginated listing of an owner's repositories, the
    client-side type filter and the empty-repository check of a single fetch.
    The HTTP transport is abstract: see `Transport`. */
module Client {
  import opened Results
  import opened Seqs
  import opened Types

  /** Repositories requested per page. */
  const PageSize := 100

  /** The account kind reported by the users endpoint. Anything but
      "Organization" is listed through the users endpoint. */
  datatype OwnerType = User | Organization | OtherOwner(kind: string)

  datatype ClientError =
    | OwnerTypeFailed(name: string, cause: string)
    | ListFailed(name: string, cause: string)
    | GetRepoFailed(owner: string, repo: string, cause: string)
    | EmptyRepository
    | TreeFailed(fullName: string, cause: string)

  /** One page of a repository listing, or the transport's error for it. */
  type PageReply = Result<seq<Repository>, string>

  /** The REST API as the core sees it. Every call either returns decoded data
      or fails with the transport's message. A listing endpoint (with its type
      parameter) holds finitely many pages: `repoPages(endpoint, type)[p - 1]`
      answers page `p`, and every page past the end of that list is empty. */
  datatype Transport = Transport(
    ownerType: string -> Result<OwnerType, string>,
    repoPages: (string, string) -> seq<PageReply>,
    getRepo: (string, string) -> Result<Repository, string>,
    getTree: string -> Result<TreeResponse, string>)

  // ------------------------------------------------------------ mapRepoTypes

  /** How many of the four classifications are selected. */
  function SelectedCount(types: RepoTypes): nat
  {
    (if types.sources then 1 else 0) + (if types.forks then 1 else 0) +
    (if types.archives then 1 else 0) + (if types.mirrors then 1 else 0)
  }

  /** The selected classifications, in the order Sources, Forks, Archives, Mirrors. */
  function Selected(types: RepoTypes): (sel: seq<RepoType>)
    ensures |sel| == SelectedCount(types)
    ensures forall t :: t in sel <==>
      (t == Sources && types.sources) || (t == Forks && types.forks) ||
      (t == Archives && types.archives) || (t == Mirrors && types.mirrors)
  {
    (if types.sources then [Sources] else []) + (if types.forks then [Forks] else []) +
    (if types.archives then [Archives] else []) + (if types.mirrors then [Mirrors] else [])
  }

  /** `repoTypeAPIParams`: the server-side `type` value for one classification
      and owner kind, where the API has one. */
  function APIParam(t: RepoType, owner: OwnerType): Option<string>
  {
    match (t, owner)
    case (Sources, Organization) => Some("sources")
    case (Sources, User) => Some("owner")
    case (Forks, Organization) => Some("forks")
    case _ => None
  }

  /** `mapRepoTypes`: server-side filtering is used only for a single selected
      classification the API supports for that owner kind; everything else
      asks for "all" and relies on the client-side filter. */
  function MapRepoTypes(types: RepoTypes, owner: OwnerType): (param: string)
    ensures SelectedCount(types) != 1 ==> param == "all"
    ensures types == RepoTypes(true, false, false, false) ==>
      param == (if owner == Organization then "sources" else if owner == User then "owner" else "all")
    ensures types == RepoTypes(false, true, false, false) ==>
      param == (if owner == Organization then "forks" else "all")
    ensures types.archives || types.mirrors ==> param == "all"
    ensures param in {"all", "sources", "owner", "forks"}
  {
    var selected := Selected(types);
    if |selected| == 1 && APIParam(selected[0], owner).Some? then
      APIParam(selected[0], owner).value
    else
      "all"
  }

  // ------------------------------------------------------ client-side filter

  /** The classification a listed repository falls under: a fork is a fork even
      when mirrored, a mirror is anything else with a mirror URL, and the rest
      are sources. */
  function Category(repo: Repository): RepoType
  {
    if repo.fork then Forks else if repo.mirrorUrl != "" then Mirrors else Sources
  }

  /** Whether the selection includes a classification. */
  predicate Includes(types: RepoTypes, t: RepoType)
  {
    t in Selected(types)
  }

  /** The client-side test `ListRepos` applies to every listed repository. */
  predicate KeepRepo(types: RepoTypes, repo: Repository)
  {
    if repo.size == 0 then false
    else if repo.archived && !types.archives then false
    else if repo.fork then types.forks
    else if repo.mirrorUrl != "" then types.mirrors
    else types.sources
  }

  /** The test as an independent statement: non-empty, archived only when
      archives are asked for, and of a selected classification. */
  lemma KeepRepoMeaning(types: RepoTypes, repo: Repository)
    ensures KeepRepo(types, repo) <==>
      repo.size != 0 && (repo.archived ==> types.archives) && Includes(types, Category(repo))
  {
  }

  function Keeper(types: RepoTypes): Repository -> bool
  {
    repo => KeepRepo(types, repo)
  }

  /** With no classification selected, nothing is kept. */
  lemma NoRepoTypesKeepNothing(repos: seq<Repository>)
    ensures Filter(Keeper(NoRepoTypes), repos) == []
  {
    FilterNone(Keeper(NoRepoTypes), repos);
  }

  /** Archived is a separate dimension layered on top of the classification:
      forks plus archives keeps forks whether archived or not, sources alone
      never keeps an archived repository. */
  lemma ArchivedIsOrthogonal(repo: Repository)
    requires repo.size != 0
    ensures repo.fork ==> KeepRepo(RepoTypes(false, true, true, false), repo)
    ensures !repo.fork && repo.mirrorUrl == "" && !repo.archived ==> KeepRepo(RepoTypes(true, false, false, false), repo)
    ensures repo.archived ==> !KeepRepo(RepoTypes(true, false, false, false), repo)
    ensures !repo.fork ==> !KeepRepo(RepoTypes(false, true, true, false), repo)
  {
  }

  // ------------------------------------------------------------- pagination

  /** The reply to page `page` (counted from 1). */
  function PageAt(replies: seq<PageReply>, page: nat): PageReply
    requires page >= 1
  {
    if page <= |replies| then replies[page - 1] else Ok([])
  }

  function Prepend(pre: seq<Repository>, r: Result<seq<Repository>, string>): Result<seq<Repository>, string>
  {
    match r
    case Ok(rest) => Ok(pre + rest)
    case Err(e) => Err(e)
  }

  /** What the listing loop accumulates when it asks for pages `page`,
      `page + 1`, ...: it stops at the first error, at the first empty page and
      after the first page shorter than a full page. */
  function Collect(replies: seq<PageReply>, page: nat): Result<seq<Repository>, string>
    requires page >= 1
    decreases |replies| + 1 - page
  {
    match PageAt(replies, page)
    case Err(e) => Err(e)
    case Ok(repos) =>
      if |repos| == 0 then Ok([])
      else if |repos| < PageSize then Ok(repos)
      else Prepend(repos, Collect(replies, page + 1))
  }

  /** A page shorter than a full page, the empty one included, is the last
      page asked for. */
  lemma ShortPageIsLast(replies: seq<PageReply>, page: nat)
    requires page >= 1
    requires PageAt(replies, page).Ok? && |PageAt(replies, page).value| < PageSize
    ensures Collect(replies, page) == Ok(PageAt(replies, page).value)
  {
  }

  /** Full pages are concatenated in page order ahead of whatever the
      following pages give. */
  lemma {:induction false} FullPagesConcatenate(replies: seq<PageReply>, m: nat)
    requires forall p :: 1 <= p <= m ==> PageAt(replies, p).Ok? && |PageAt(replies, p).value| >= PageSize
    ensures Collect(replies, 1) == Prepend(FullPages(replies, m), Collect(replies, m + 1))
  {
    if m == 0 {
      PrependNil(Collect(replies, 1));
    } else {
      FullPagesConcatenate(replies, m - 1);
      assert Collect(replies, m) == Prepend(PageAt(replies, m).value, Collect(replies, m + 1));
      PrependPrepend(FullPages(replies, m - 1), PageAt(replies, m).value, Collect(replies, m + 1));
    }
  }

  lemma PrependNil(r: Result<seq<Repository>, string>)
    ensures Prepend([], r) == r
  {
    if r.Ok? {
      assert [] + r.value == r.value;
    }
  }

  lemma PrependPrepend(a: seq<Repository>, b: seq<Repository>, r: Result<seq<Repository>, string>)
    ensures Prepend(a, Prepend(b, r)) == Prepend(a + b, r)
  {
    if r.Ok? {
      assert a + (b + r.value) == (a + b) + r.value;
    }
  }

  /** The first `m` pages, concatenated in order. */
  function FullPages(replies: seq<PageReply>, m: nat): seq<Repository>
    requires forall p :: 1 <= p <= m ==> PageAt(replies, p).Ok?
  {
    if m == 0 then [] else FullPages(replies, m - 1) + PageAt(replies, m).value
  }

  /** The listing is exactly pages 1..m when pages 1..m-1 are full and page m
      is short; an error on page m fails the whole listing. */
  lemma ListingEndsAtShortPage(replies: seq<PageReply>, m: nat)
    requires m >= 1
    requires forall p :: 1 <= p < m ==> PageAt(replies, p).Ok? && |PageAt(replies, p).value| >= PageSize
    ensures PageAt(replies, m).Ok? && |PageAt(replies, m).value| < PageSize ==>
      Collect(replies, 1) == Ok(FullPages(replies, m - 1) + PageAt(replies, m).value)
    ensures PageAt(replies, m).Err? ==> Collect(replies, 1) == Err(PageAt(replies, m).error)
  {
    FullPagesConcatenate(replies, m - 1);
  }

  // --------------------------------------------------------------- ListRepos

  /** The listing endpoint for an owner: organisations have their own. */
  function BaseEndpoint(name: string, owner: OwnerType): string
  {
    if owner == Organization then "orgs/" + name + "/repos" else "users/" + name + "/repos"
  }

  /** What `ListRepos` returns. */
  function ListReposResult(name: string, types: RepoTypes, t: Transport): Result<seq<Repository>, ClientError>
  {
    match t.ownerType(name)
    case Err(e) => Err(OwnerTypeFailed(name, e))
    case Ok(owner) =>
      match Collect(t.repoPages(BaseEndpoint(name, owner), MapRepoTypes(types, owner)), 1)
      case Err(e) => Err(ListFailed(name, e))
      case Ok(all) => Ok(Filter(Keeper(types), all))
  }

  /** `ListRepos`: detect the owner kind, page through the listing and keep
      the repositories the selection asks for, in listing order. */
  method ListRepos(name: string, types: RepoTypes, t: Transport) returns (r: Result<seq<Repository>, ClientError>)
    ensures r == ListReposResult(name, types, t)
    ensures r.Ok? ==> forall repo :: repo in r.value ==> repo.size != 0 && KeepRepo(types, repo)
  {
    var accountType;
    match t.ownerType(name) {
      case Err(e) => return Err(OwnerTypeFailed(name, e));
      case Ok(o) => accountType := o;
    }
    var replies := t.repoPages(BaseEndpoint(name, accountType), MapRepoTypes(types, accountType));
    var listed := FetchPages(replies);
    if listed.Err? {
      return Err(ListFailed(name, listed.error));
    }
    var filtered := KeepSelected(listed.value, types);
    r := Ok(filtered);
  }

  /** The pagination loop of `ListRepos`: request page after page until one
      comes back empty or short, failing on the first failed request. */
  method FetchPages(replies: seq<PageReply>) returns (r: Result<seq<Repository>, string>)
    ensures r == Collect(replies, 1)
  {
    var allRepos: seq<Repository> := [];
    var page := 1;
    PrependNil(Collect(replies, 1));
    while true
      invariant 1 <= page <= |replies| + 1
      invariant Collect(replies, 1) == Prepend(allRepos, Collect(replies, page))
      decreases |replies| + 1 - page
    {
      var reply := PageAt(replies, page);
      if reply.Err? {
        return Err(reply.error);
      }
      var repos := reply.value;
      if |repos| == 0 {
        assert Collect(replies, page) == Ok([]);
        assert allRepos + [] == allRepos;
        return Ok(allRepos);
      }
      if |repos| < PageSize {
        PrependPrepend(allRepos, repos, Ok([]));
        assert repos + [] == repos;
        return Ok(allRepos + repos);
      }
      assert page <= |replies|;
      PrependPrepend(allRepos, repos, Collect(replies, page + 1));
      allRepos := allRepos + repos;
      page := page + 1;
    }
  }

  /** The filter loop of `ListRepos`: the listed repositories the selection
      keeps, in listing order; none of them is empty. */
  method KeepSelected(all: seq<Repository>, types: RepoTypes) returns (filtered: seq<Repository>)
    ensures filtered == Filter(Keeper(types), all)
    ensures forall repo :: repo in filtered ==> repo.size != 0 && KeepRepo(types, repo)
  {
    filtered := [];
    var i := 0;
    while i < |all|
      invariant 0 <= i <= |all|
      invariant filtered == Filter(Keeper(types), all[..i])
    {
      var repo := all[i];
      assert all[..i + 1] == all[..i] + [repo];
      FilterSnoc(Keeper(types), all[..i], repo);
      if KeepRepo(types, repo) {
        filtered := filtered + [repo];
      }
      i := i + 1;
    }
    assert all[..i] == all;
    forall repo | repo in filtered ensures repo.size != 0 && KeepRepo(types, repo) {
      FilterMembership(Keeper(types), all, repo);
    }
  }

  /** The kept repositories appear in listing order, unmodified. */
  lemma ListReposIsSubsequence(name: string, types: RepoTypes, t: Transport, owner: OwnerType, all: seq<Repository>)
    requires t.ownerType(name) == Ok(owner)
    requires Collect(t.repoPages(BaseEndpoint(name, owner), MapRepoTypes(types, owner)), 1) == Ok(all)
    ensures ListReposResult(name, types, t).Ok?
    ensures IsSubsequence(ListReposResult(name, types, t).value, all)
    ensures forall repo :: repo in ListReposResult(name, types, t).value <==> repo in all && KeepRepo(types, repo)
  {
    FilterIsSubsequence(Keeper(types), all);
    forall repo ensures repo in Filter(Keeper(types), all) <==> repo in all && KeepRepo(types, repo) {
      FilterMembership(Keeper(types), all, repo);
    }
  }

  // ----------------------------------------------------------------- GetRepo

  /** `GetRepo`: a single named repository, refused when it has no commits. */
  function GetRepo(owner: string, repo: string, t: Transport): (r: Result<Repository, ClientError>)
    ensures r.Ok? <==> t.getRepo(owner, repo).Ok? && t.getRepo(owner, repo).value.size != 0
    ensures r.Ok? ==> r.value == t.getRepo(owner, repo).value
    ensures t.getRepo(owner, repo).Err? ==> r == Err(GetRepoFailed(owner, repo, t.getRepo(owner, repo).error))
    ensures t.getRepo(owner, repo).Ok? && r.Err? ==> r.error == EmptyRepository
  {
    match t.getRepo(owner, repo)
    case Err(e) => Err(GetRepoFailed(owner, repo, e))
    case Ok(result) => if result.size == 0 then Err(EmptyRepository) else Ok(result)
  }

  // ----------------------------------------------------------------- GetTree

  /** The endpoint of the recursive tree listing of a repository's default
      branch. */
  function TreeEndpoint(repo: Repository): string
  {
    "repos/" + repo.owner + "/" + repo.name + "/git/trees/" + repo.defaultBranch + "?recursive=1"
  }

  /** `GetTree`: the whole tree of the default branch as fetched, or the
      transport's error labelled with the repository's full name. */
  function GetTree(repo: Repository, t: Transport): (r: Result<TreeResponse, ClientError>)
    ensures r.Ok? <==> t.getTree(TreeEndpoint(repo)).Ok?
    ensures r.Ok? ==> r.value == t.getTree(TreeEndpoint(repo)).value
    ensures r.Err? ==> r.error == TreeFailed(repo.fullName, t.getTree(TreeEndpoint(repo)).error)
  {
    match t.getTree(TreeEndpoint(repo))
    case Err(e) => Err(TreeFailed(repo.fullName, e))
    case Ok(tree) => Ok(tree)
  }
}
