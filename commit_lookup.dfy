/**
 * The commit lookup, `fetch_latest_commit_for_path`: walk the decoded GraphQL
 * response down repository -> defaultBranchRef -> target (a commit) -> history
 * -> first edge -> node, any link of which may be absent, and flatten the node
 * into a display record with fallbacks for the author and placeholders for the
 * hash and date.
 */
module CommitLookup {
  import opened Wrappers
  import opened Text
  import opened Urls
  import opened PairSet
  import opened Search

  // The response tree, one datatype per GraphQL object, with only the fields the lookup reads.

  datatype User = User(login: Option<string>)
  datatype Author = Author(user: Option<User>, name: Option<string>)
  datatype CommitNode = CommitNode(author: Option<Author>, abbreviatedOid: Option<string>, committedDate: Option<string>)
  datatype Edge = Edge(node: Option<CommitNode>)
  datatype History = History(edges: Option<seq<Option<Edge>>>)
  /** `defaultBranchRef.target`: the query resolves only to the `Commit` variant. */
  datatype RefTarget = Commit(history: Option<History>)
  datatype Ref = Ref(target: Option<RefTarget>)
  datatype Repository = Repository(defaultBranchRef: Option<Ref>)
  datatype ResponseData = ResponseData(repository: Option<Repository>)
  /** `Response<ResponseData>`; the `errors` member is never read. */
  datatype Response = Response(data: Option<ResponseData>)

  datatype CommitInfo = CommitInfo(repoFull: string, url: string, login: string, sha: string, date: string)

  const UNKNOWN_AUTHOR := "unknown"
  const NO_VALUE := "-"

  /** First step: `data` and then `repository`. */
  function RepositoryOf(resp: Response): Option<Repository> {
    match resp.data
    case None => None
    case Some(d) => d.repository
  }

  /** Second step: `defaultBranchRef` and then its `target`, which is a commit. */
  function CommitOf(repo: Repository): Option<RefTarget> {
    match repo.defaultBranchRef
    case None => None
    case Some(r) => r.target
  }

  /** Third step: `history`, `edges`, the first edge, which may itself be null, and its `node`. */
  function FirstNode(commit: RefTarget): Option<CommitNode> {
    match commit
    case Commit(history) =>
      match history
      case None => None
      case Some(h) =>
        match h.edges
        case None => None
        case Some(edges) =>
          if |edges| == 0 then None
          else match edges[0]
            case None => None
            case Some(edge) => edge.node
  }

  /** The node the lookup reaches, if every link is present. */
  function LatestNode(resp: Response): Option<CommitNode> {
    match RepositoryOf(resp)
    case None => None
    case Some(repo) =>
      match CommitOf(repo)
      case None => None
      case Some(commit) => FirstNode(commit)
  }

  /** `author.user.login`, else `author.name`, else "unknown". */
  function AuthorLogin(node: CommitNode): string {
    match node.author
    case None => UNKNOWN_AUTHOR
    case Some(a) =>
      match a.user
      case Some(User(Some(login))) => login
      case _ =>
        match a.name
        case Some(name) => name
        case None => UNKNOWN_AUTHOR
  }

  /** `as_deref().unwrap_or("-")` */
  function OrPlaceholder(field: Option<string>): string {
    field.GetOr(NO_VALUE)
  }

  /** `fetch_latest_commit_for_path` once the response is decoded: `None` is "not found". */
  function FetchLatestCommit(resp: Response, gheUrl: string, t: RepoTarget): Option<CommitInfo> {
    match LatestNode(resp)
    case None => None
    case Some(node) =>
      Some(CommitInfo(
        t.owner + "/" + t.repo,
        RepoUrl(gheUrl, t.owner, t.repo),
        AuthorLogin(node),
        OrPlaceholder(node.abbreviatedOid),
        OrPlaceholder(node.committedDate)))
  }

  /** Some link of the chain is absent: the disjunction of every way the walk can stop. */
  predicate LinkMissing(resp: Response) {
    || resp.data.None?
    || resp.data.value.repository.None?
    || resp.data.value.repository.value.defaultBranchRef.None?
    || resp.data.value.repository.value.defaultBranchRef.value.target.None?
    || resp.data.value.repository.value.defaultBranchRef.value.target.value.history.None?
    || resp.data.value.repository.value.defaultBranchRef.value.target.value.history.value.edges.None?
    || |resp.data.value.repository.value.defaultBranchRef.value.target.value.history.value.edges.value| == 0
    || resp.data.value.repository.value.defaultBranchRef.value.target.value.history.value.edges.value[0].None?
    || resp.data.value.repository.value.defaultBranchRef.value.target.value.history.value.edges.value[0].value.node.None?
  }

  /** The response that carries `node` as its first history entry, followed by the edges `rest`. */
  function ChainTo(node: CommitNode, rest: seq<Option<Edge>>): Response {
    Response(Some(ResponseData(Some(Repository(Some(Ref(Some(Commit(Some(History(Some([Some(Edge(Some(node)))] + rest))))))))))))
  }

  /** The lookup finds nothing exactly when some link is absent; there is no other outcome. */
  lemma NotFoundIffLinkMissing(resp: Response, gheUrl: string, t: RepoTarget)
    ensures FetchLatestCommit(resp, gheUrl, t).None? <==> LinkMissing(resp)
  {
  }

  /** A found commit is the node of the first edge of a response that has every link. */
  lemma FoundIsFirstEdge(resp: Response, gheUrl: string, t: RepoTarget)
    requires FetchLatestCommit(resp, gheUrl, t).Some?
    ensures exists node, rest :: resp == ChainTo(node, rest) && LatestNode(resp) == Some(node)
  {
    var edges := resp.data.value.repository.value.defaultBranchRef.value.target.value.history.value.edges.value;
    var node := edges[0].value.node.value;
    assert edges == [edges[0]] + edges[1..];
    assert resp == ChainTo(node, edges[1..]);
  }

  /** Whatever follows the first edge is never consulted. */
  lemma OnlyFirstEdgeMatters(node: CommitNode, rest: seq<Option<Edge>>, gheUrl: string, t: RepoTarget)
    ensures FetchLatestCommit(ChainTo(node, rest), gheUrl, t) == FetchLatestCommit(ChainTo(node, []), gheUrl, t)
    ensures FetchLatestCommit(ChainTo(node, rest), gheUrl, t).Some?
  {
  }

  /** Author precedence: the account login, then the free-text name, then "unknown", in every combination. */
  lemma AuthorPrecedence(node: CommitNode)
    ensures node.author.Some? && node.author.value.user.Some? && node.author.value.user.value.login.Some? ==>
              AuthorLogin(node) == node.author.value.user.value.login.value
    ensures node.author.Some? && !(node.author.value.user.Some? && node.author.value.user.value.login.Some?)
              && node.author.value.name.Some? ==>
              AuthorLogin(node) == node.author.value.name.value
    ensures node.author.None? || (!(node.author.value.user.Some? && node.author.value.user.value.login.Some?)
              && node.author.value.name.None?) ==>
              AuthorLogin(node) == UNKNOWN_AUTHOR
  {
  }

  /** The reported fields are the node's own values when present and placeholders only when absent. */
  lemma FieldsOrPlaceholders(resp: Response, gheUrl: string, t: RepoTarget)
    requires FetchLatestCommit(resp, gheUrl, t).Some?
    ensures var info := FetchLatestCommit(resp, gheUrl, t).value;
            var node := LatestNode(resp).value;
            && (node.abbreviatedOid.Some? ==> info.sha == node.abbreviatedOid.value)
            && (node.abbreviatedOid.None? ==> info.sha == NO_VALUE)
            && (node.committedDate.Some? ==> info.date == node.committedDate.value)
            && (node.committedDate.None? ==> info.date == NO_VALUE)
            && (info.sha == "" ==> node.abbreviatedOid == Some(""))
            && (info.date == "" ==> node.committedDate == Some(""))
            && (info.login == "" ==>
                  (node.author.Some? &&
                   ((node.author.value.user.Some? && node.author.value.user.value.login == Some(""))
                    || node.author.value.name == Some(""))))
  {
  }

  /** The reported full name is the target's owner and repository joined by '/', and the URL is that repository's page. */
  lemma ReportedFullName(resp: Response, gheUrl: string, t: RepoTarget, info: CommitInfo)
    requires FetchLatestCommit(resp, gheUrl, t) == Some(info)
    ensures info.repoFull == t.owner + "/" + t.repo
    ensures info.url == RepoUrl(gheUrl, t.owner, t.repo)
  {
  }

  /** A target whose owner holds no '/' splits back from its full name, and its web URL ends in that name. */
  lemma TargetNameRoundTrip(gheUrl: string, t: RepoTarget)
    requires '/' !in t.owner
    ensures SplitOnce(TargetKey(t).0, '/') == Some((t.owner, t.repo))
    ensures RepoUrl(gheUrl, t.owner, t.repo) == TrimTrailing(gheUrl, '/') + "/" + TargetKey(t).0
  {
    SplitOnceJoin(t.owner, t.repo, '/');
    RepoUrlShape(gheUrl, t.owner, t.repo);
  }

  /**
   * For any target the search stage lists for a gathered set `pairs`, a found
   * commit reports as its full name the full name the search gathered with the
   * target's path; that name splits back into the target's owner and
   * repository, and the URL is the trimmed host, '/', and that name.
   */
  lemma ReportedNameRoundTrip(ts: seq<RepoTarget>, pairs: set<Pair>, i: nat,
                              resp: Response, gheUrl: string, info: CommitInfo)
    requires Lists(ts, pairs) && i < |ts|
    requires FetchLatestCommit(resp, gheUrl, ts[i]) == Some(info)
    ensures (info.repoFull, ts[i].path) in pairs
    ensures SplitOnce(info.repoFull, '/') == Some((ts[i].owner, ts[i].repo))
    ensures info.url == TrimTrailing(gheUrl, '/') + "/" + info.repoFull
  {
    ReportedFullName(resp, gheUrl, ts[i], info);
    assert Keys(ts)[i] in Elems(Keys(ts));
    TargetNameRoundTrip(gheUrl, ts[i]);
  }
}
