/**
 * Configuration and the URLs derived from the host's base URL: the GraphQL
 * endpoint (`load_config`), the code-search endpoint (`search_repos_with_file`)
 * and a repository's web page (`fetch_latest_commit_for_path`). Each joins the
 * base URL, with every trailing '/' removed, to a fixed or per-repository suffix.
 */
module Urls {
  import opened Text

  const GRAPHQL_PATH := "/api/graphql"
  const SEARCH_CODE_PATH := "/api/v3/search/code"

  /**
   * The process configuration. `gheUrl` is kept exactly as read (untrimmed);
   * `graphqlUrl` is derived from it by GraphqlUrl.
   */
  datatype Config = Config(gheUrl: string, token: string, filename: string, graphqlUrl: string)

  /** `format!("{}{}", host.trim_end_matches('/'), suffix)` */
  function HostJoin(host: string, suffix: string): (u: string)
    ensures |u| >= |suffix| && u[|u| - |suffix|..] == suffix
    ensures IsTrimmedOf(u[..|u| - |suffix|], host, '/')
  {
    var base := TrimTrailing(host, '/');
    assert (base + suffix)[..|base|] == base;
    base + suffix
  }

  /** The GraphQL endpoint: the trimmed host followed by "/api/graphql". */
  function GraphqlUrl(host: string): (u: string)
    ensures |u| >= |GRAPHQL_PATH| && u[|u| - |GRAPHQL_PATH|..] == GRAPHQL_PATH
    ensures IsTrimmedOf(u[..|u| - |GRAPHQL_PATH|], host, '/')
  {
    HostJoin(host, GRAPHQL_PATH)
  }

  /** The code-search endpoint: the trimmed host followed by "/api/v3/search/code". */
  function SearchUrl(host: string): (u: string)
    ensures |u| >= |SEARCH_CODE_PATH| && u[|u| - |SEARCH_CODE_PATH|..] == SEARCH_CODE_PATH
    ensures IsTrimmedOf(u[..|u| - |SEARCH_CODE_PATH|], host, '/')
  {
    HostJoin(host, SEARCH_CODE_PATH)
  }

  /** A repository's web page: the trimmed host followed by "/owner/repo". */
  function RepoUrl(host: string, owner: string, repo: string): (u: string)
    ensures var n := |owner| + |repo| + 2;
            |u| >= n && u[|u| - n..] == "/" + owner + "/" + repo
            && IsTrimmedOf(u[..|u| - n], host, '/')
  {
    HostJoin(host, "/" + owner + "/" + repo)
  }

  /**
   * The configuration once `GHE_URL`, `GITHUB_TOKEN` and the file name have been
   * read: the host is stored as read, untrimmed, and the GraphQL endpoint is
   * derived from it.
   */
  function LoadConfig(gheUrl: string, token: string, filename: string): (c: Config)
    ensures c.gheUrl == gheUrl && c.token == token && c.filename == filename
    ensures |c.graphqlUrl| >= |GRAPHQL_PATH| && c.graphqlUrl[|c.graphqlUrl| - |GRAPHQL_PATH|..] == GRAPHQL_PATH
    ensures IsTrimmedOf(c.graphqlUrl[..|c.graphqlUrl| - |GRAPHQL_PATH|], gheUrl, '/')
  {
    Config(gheUrl, token, filename, GraphqlUrl(gheUrl))
  }

  /**
   * At the join point there is no doubled '/': the character before a suffix
   * that starts with '/' is not itself '/'.
   */
  lemma NoDoubleSlashAtJoin(host: string, suffix: string)
    requires |suffix| > 0 && suffix[0] == '/'
    ensures var u := HostJoin(host, suffix);
            var n := |u| - |suffix|;
            u[n] == '/' && (n == 0 || u[n - 1] != '/')
  {

  }

  /** The joined URL depends on the host only through its trimmed form. */
  lemma HostJoinTrimmed(host: string, suffix: string)
    ensures HostJoin(host, suffix) == TrimTrailing(host, '/') + suffix
  {

  }

  /** Any number of trailing slashes on the configured host yield the same URLs. */
  lemma UrlsIgnoreTrailingSlashes(host: string, slashes: string, owner: string, repo: string)
    requires forall i :: 0 <= i < |slashes| ==> slashes[i] == '/'
    ensures GraphqlUrl(host + slashes) == GraphqlUrl(host)
    ensures SearchUrl(host + slashes) == SearchUrl(host)
    ensures RepoUrl(host + slashes, owner, repo) == RepoUrl(host, owner, repo)
  {
    TrimIgnoresTrailing(host, slashes, '/');
    HostJoinTrimmed(host + slashes, GRAPHQL_PATH);
    HostJoinTrimmed(host, GRAPHQL_PATH);
    HostJoinTrimmed(host + slashes, SEARCH_CODE_PATH);
    HostJoinTrimmed(host, SEARCH_CODE_PATH);
    HostJoinTrimmed(host + slashes, "/" + owner + "/" + repo);
    HostJoinTrimmed(host, "/" + owner + "/" + repo);
  }

  /** Deriving a URL from an already-trimmed host gives the same URL: trimming is idempotent. */
  lemma HostJoinIdempotent(host: string, suffix: string)
    ensures HostJoin(TrimTrailing(host, '/'), suffix) == HostJoin(host, suffix)
  {

  }

  /** A repository's web page is the trimmed host, a '/', then the full name `owner/repo`. */
  lemma RepoUrlShape(host: string, owner: string, repo: string)
    ensures RepoUrl(host, owner, repo) == TrimTrailing(host, '/') + "/" + (owner + "/" + repo)
  {
    var base, full := TrimTrailing(host, '/'), owner + "/" + repo;
    calc {
      RepoUrl(host, owner, repo);
      HostJoin(host, "/" + owner + "/" + repo);
      { HostJoinTrimmed(host, "/" + owner + "/" + repo); }
      base + ("/" + owner + "/" + repo);
      { assert "/" + owner + "/" + repo == "/" + full; }
      base + ("/" + full);
      base + "/" + full;
    }
  }
}
