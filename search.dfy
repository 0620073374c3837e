/**
 * The search stage, `search_repos_with_file`: request the code-search endpoint
 * page by page until the first page without items, gather the
 * (repository full name, path) of every hit in a B-tree set, then split every
 * full name at its first '/' into owner and repository.
 *
 * The network is a parameter: `replies[k]` is what the request for page k + 1
 * yields.
 */
module Search {
  import opened Wrappers
  import opened Text
  import opened PairSet
  import opened Urls

  /** The `per_page` query parameter. */
  const PER_PAGE: nat := 100

  /** The `repository` object of one hit; only `full_name` is read. */
  datatype HitRepository = HitRepository(fullName: Option<string>)

  /** One element of `items`. A field that is missing or not a string is `None`. */
  datatype Item = Item(repository: Option<HitRepository>, path: Option<string>)

  /** A decoded response body. `items` is `None` when it is missing or not an array. */
  datatype Body = Body(items: Option<seq<Item>>)

  /** The outcome of one page request: a decoded body, or a transport, HTTP status or JSON failure. */
  datatype Reply = Received(body: Body) | Failed

  /** One GET of the search endpoint: URL, bearer token and the `q`, `per_page` and `page` parameters. */
  datatype SearchRequest = SearchRequest(url: string, bearer: string, q: string, perPage: nat, page: nat)

  datatype RepoTarget = RepoTarget(owner: string, repo: string, path: string)

  /**
   * Why the stage fails: a page request failed (an error returned with `?`), or
   * a gathered full name has no '/' (the `expect` on `split_once` panics).
   */
  datatype SearchError = PageFailed(page: nat) | InvalidRepoFormat

  function PageRequest(cfg: Config, page: nat): SearchRequest {
    SearchRequest(SearchUrl(cfg.gheUrl), cfg.token, "filename:" + cfg.filename, PER_PAGE, page)
  }

  /** `body["items"].as_array().cloned().unwrap_or_default()` */
  function ItemsOf(b: Body): seq<Item> {
    b.items.GetOr([])
  }

  /** The pair an item contributes: present only when both `repository.full_name` and `path` are strings. */
  function KeyOf(item: Item): Option<Pair> {
    match (item.repository, item.path)
    case (Some(HitRepository(Some(name))), Some(path)) => Some((name, path))
    case _ => None
  }

  /** A reply ends the scan when it failed or when its page has no items. */
  predicate EndsScan(r: Reply) {
    r.Failed? || ItemsOf(r.body) == []
  }

  /** The stream of replies reaches an end: otherwise the source would request pages forever. */
  predicate ScanEnds(replies: seq<Reply>) {
    exists k :: 0 <= k < |replies| && EndsScan(replies[k])
  }

  /** The index of the first reply at or after `from` that ends the scan. */
  function FirstEndFrom(replies: seq<Reply>, from: nat): (k: nat)
    requires exists i :: from <= i < |replies| && EndsScan(replies[i])
    ensures from <= k < |replies| && EndsScan(replies[k])
    ensures forall j :: from <= j < k ==> !EndsScan(replies[j])
    decreases |replies| - from
  {
    if EndsScan(replies[from]) then from else FirstEndFrom(replies, from + 1)
  }

  /** The index of the reply that ends the scan. */
  function FirstEnd(replies: seq<Reply>): nat
    requires ScanEnds(replies)
  {
    FirstEndFrom(replies, 0)
  }

  /** The pairs a sequence of items contributes. */
  function PairsIn(items: seq<Item>): set<Pair>
    decreases |items|
  {
    if items == [] then {}
    else
      var last := KeyOf(items[|items| - 1]);
      PairsIn(items[..|items| - 1]) + (if last.Some? then {last.value} else {})
  }

  /** The pairs gathered from the first `k` replies. */
  function Collected(replies: seq<Reply>, k: nat): set<Pair>
    requires k <= |replies|
  {
    if k == 0 then {}
    else Collected(replies, k - 1) + (if replies[k - 1].Received? then PairsIn(ItemsOf(replies[k - 1].body)) else {})
  }

  /** An item missing either field contributes nothing; every item with both contributes its pair. */
  lemma {:induction false} PairsInExactly(items: seq<Item>, p: Pair)
    ensures p in PairsIn(items) <==> exists i :: 0 <= i < |items| && KeyOf(items[i]) == Some(p)
    decreases |items|
  {
    if items != [] {
      var init := items[..|items| - 1];
      PairsInExactly(init, p);
      if p in PairsIn(init) {
        var i :| 0 <= i < |init| && KeyOf(init[i]) == Some(p);
        assert items[i] == init[i];
      }
      if exists i :: 0 <= i < |items| && KeyOf(items[i]) == Some(p) {
        var i :| 0 <= i < |items| && KeyOf(items[i]) == Some(p);
        if i < |init| {
          assert init[i] == items[i];
        }
      }
    }
  }

  /** The gathered pairs are exactly those of the keyed items on the received pages. */
  lemma {:induction false} CollectedExactly(replies: seq<Reply>, k: nat, p: Pair)
    requires k <= |replies|
    ensures p in Collected(replies, k) <==>
              exists j, i :: 0 <= j < k && replies[j].Received? && 0 <= i < |ItemsOf(replies[j].body)|
                             && KeyOf(ItemsOf(replies[j].body)[i]) == Some(p)
  {
    if k > 0 {
      CollectedExactly(replies, k - 1, p);
      if replies[k - 1].Received? {
        PairsInExactly(ItemsOf(replies[k - 1].body), p);
      }
    }
  }

  function TargetKey(t: RepoTarget): Pair {
    (t.owner + "/" + t.repo, t.path)
  }

  function Keys(ts: seq<RepoTarget>): (ks: seq<Pair>)
    ensures |ks| == |ts| && forall i :: 0 <= i < |ts| ==> ks[i] == TargetKey(ts[i])
  {
    seq(|ts|, i requires 0 <= i < |ts| => TargetKey(ts[i]))
  }

  /**
   * `ts` is the output for the gathered set `pairs`: one target per pair, in
   * ascending order of the pair, each owner being the text before the first '/'.
   */
  ghost predicate Lists(ts: seq<RepoTarget>, pairs: set<Pair>) {
    && Sorted(Keys(ts))
    && Elems(Keys(ts)) == pairs
    && forall i :: 0 <= i < |ts| ==> '/' !in ts[i].owner
  }

  /** No two listed targets coincide, neither as (owner, repo, path) nor as (full name, path). */
  lemma ListedTargetsDistinct(ts: seq<RepoTarget>, pairs: set<Pair>)
    requires Lists(ts, pairs)
    ensures forall i, j :: 0 <= i < |ts| && 0 <= j < |ts| && i != j ==>
              TargetKey(ts[i]) != TargetKey(ts[j]) && ts[i] != ts[j]
  {
    SortedDistinct(Keys(ts));
  }

  /** The listing of a set of pairs is unique: order and split are both determined. */
  lemma ListingDetermined(ts: seq<RepoTarget>, us: seq<RepoTarget>, pairs: set<Pair>)
    requires Lists(ts, pairs) && Lists(us, pairs)
    ensures ts == us
  {
    SortedUnique(Keys(ts), Keys(us));
    forall i | 0 <= i < |ts|
      ensures ts[i] == us[i]
    {
      assert TargetKey(ts[i]) == Keys(ts)[i] == Keys(us)[i] == TargetKey(us[i]);
      assert ts[i].owner + ['/'] + ts[i].repo == us[i].owner + ['/'] + us[i].repo;
      JoinInjective(ts[i].owner, ts[i].repo, us[i].owner, us[i].repo, '/');
    }
  }

  /** The inner `for item in items` loop: insert the pair of every keyed item into the set. */
  method InsertPage(found: seq<Pair>, items: seq<Item>) returns (found': seq<Pair>)
    requires Sorted(found)
    ensures Sorted(found')
    ensures Elems(found') == Elems(found) + PairsIn(items)
  {
    found' := found;
    for i := 0 to |items|
      invariant Sorted(found')
      invariant Elems(found') == Elems(found) + PairsIn(items[..i])
    {
      assert items[..i + 1][..i] == items[..i];
      match KeyOf(items[i]) {
        case Some(p) => found' := Insert(found', p);
        case None =>
      }
    }
    assert items[..|items|] == items;
  }

  /** `set.into_iter().map(..).collect()`: split every full name at its first '/'. */
  method SplitTargets(pairs: seq<Pair>) returns (r: Result<seq<RepoTarget>, SearchError>)
    ensures r.Err? <==> exists p :: p in pairs && '/' !in p.0
    ensures r.Err? ==> r.error == InvalidRepoFormat
    ensures r.Ok? ==> Keys(r.value) == pairs && forall i :: 0 <= i < |r.value| ==> '/' !in r.value[i].owner
  {
    var targets: seq<RepoTarget> := [];
    for j := 0 to |pairs|
      invariant |targets| == j
      invariant forall m :: 0 <= m < j ==> TargetKey(targets[m]) == pairs[m] && '/' !in targets[m].owner
      invariant forall m :: 0 <= m < j ==> '/' in pairs[m].0
    {
      var (fullName, path) := pairs[j];
      match SplitOnce(fullName, '/') {
        case None =>
          assert pairs[j] in pairs;
          return Err(InvalidRepoFormat);
        case Some((owner, repo)) =>
          targets := targets + [RepoTarget(owner, repo, path)];
      }
    }
    r := Ok(targets);
  }

  /**
   * `search_repos_with_file`: the requests it sends and what it returns. It
   * requests pages 1, 2, ... up to and including the first that fails or has
   * no items (a short but non-empty page does not stop it). A failed page
   * ends it with that error; otherwise it lists the gathered set, or fails if a
   * gathered full name has no '/'.
   */
  method SearchReposWithFile(cfg: Config, replies: seq<Reply>)
    returns (sent: seq<SearchRequest>, r: Result<seq<RepoTarget>, SearchError>)
    requires ScanEnds(replies)
    ensures |sent| == FirstEnd(replies) + 1
    ensures forall k :: 0 <= k < |sent| ==> sent[k] == PageRequest(cfg, k + 1)
    ensures replies[FirstEnd(replies)].Failed? ==> r == Err(PageFailed(FirstEnd(replies) + 1))
    ensures replies[FirstEnd(replies)].Received? ==>
              (r.Err? <==> exists p :: p in Collected(replies, FirstEnd(replies)) && '/' !in p.0)
    ensures replies[FirstEnd(replies)].Received? && r.Err? ==> r.error == InvalidRepoFormat
    ensures replies[FirstEnd(replies)].Received? && r.Ok? ==> Lists(r.value, Collected(replies, FirstEnd(replies)))
  {
    var searchUrl := SearchUrl(cfg.gheUrl);
    var found: seq<Pair> := [];
    var page: nat := 1;
    sent := [];
    ghost var stop := FirstEnd(replies);
    while true
      invariant 1 <= page <= stop + 1
      invariant |sent| == page - 1
      invariant forall k :: 0 <= k < |sent| ==> sent[k] == PageRequest(cfg, k + 1)
      invariant Sorted(found) && Elems(found) == Collected(replies, page - 1)
      decreases stop + 1 - page
    {
      sent := sent + [SearchRequest(searchUrl, cfg.token, "filename:" + cfg.filename, PER_PAGE, page)];
      var reply := replies[page - 1];
      if reply.Failed? {
        return sent, Err(PageFailed(page));
      }
      var items := ItemsOf(reply.body);
      if items == [] {
        break;
      }
      found := InsertPage(found, items);
      page := page + 1;
    }
    r := SplitTargets(found);
  }
}
