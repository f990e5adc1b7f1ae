/**
 * The listing-page side of the laptop spider: every review link is checked
 * against the set of source URLs already fetched (in this run or an earlier
 * one) and only new links are followed.
 */
module SpiderGate {
  import opened Values

  /** A detail-page request and the `laptop_fetch_cnt` it carries. */
  datatype DetailRequest = DetailRequest(url: string, fetchCount: nat)

  /**
   * The links of one listing page run through the seen set, in order: the
   * seen set afterwards and the requests scheduled.
   */
  function Gate(seen: set<string>, links: seq<string>): (set<string>, seq<DetailRequest>)
    decreases |links|
  {
    if links == [] then (seen, [])
    else
      var prev := Gate(seen, links[..|links| - 1]);
      var link := links[|links| - 1];
      if link in prev.0 then prev
      else (prev.0 + {link}, prev.1 + [DetailRequest(link, |prev.0| + 1)])
  }

  /** Afterwards every link of the page counts as seen, and nothing else is added. */
  lemma {:induction false} GateSeen(seen: set<string>, links: seq<string>)
    ensures Gate(seen, links).0 == seen + set l | l in links
    decreases |links|
  {
    if links != [] {
      var init := links[..|links| - 1];
      var link := links[|links| - 1];
      assert links == init + [link];
      assert (set l | l in links) == (set l | l in init) + {link};
      GateSeen(seen, init);
    }
  }

  /**
   * Each request grows the seen set by one, and carries the size of the
   * seen set right after its link was added.
   */
  lemma {:induction false} GateCounts(seen: set<string>, links: seq<string>)
    ensures |Gate(seen, links).0| == |seen| + |Gate(seen, links).1|
    ensures forall i | 0 <= i < |Gate(seen, links).1| ::
      Gate(seen, links).1[i].url in Gate(seen, links).0 && Gate(seen, links).1[i].fetchCount == |seen| + i + 1
    decreases |links|
  {
    if links != [] {
      GateCounts(seen, links[..|links| - 1]);
    }
  }

  /** Running one more link through the gate. */
  lemma GateStep(seen: set<string>, links: seq<string>, i: nat)
    requires i < |links|
    ensures Gate(seen, links[..i + 1]) ==
      if links[i] in Gate(seen, links[..i]).0 then Gate(seen, links[..i])
      else (Gate(seen, links[..i]).0 + {links[i]},
            Gate(seen, links[..i]).1 + [DetailRequest(links[i], |Gate(seen, links[..i]).0| + 1)])
  {
    assert links[..i + 1][..i] == links[..i];
  }

  /** Every request goes to a link of the page that had not been seen before. */
  lemma {:induction false} GateOnlyNew(seen: set<string>, links: seq<string>)
    ensures forall i | 0 <= i < |Gate(seen, links).1| ::
      Gate(seen, links).1[i].url !in seen && Gate(seen, links).1[i].url in links
    decreases |links|
  {
    if links != [] {
      var init := links[..|links| - 1];
      var link := links[|links| - 1];
      assert links == init + [link];
      GateOnlyNew(seen, init);
      GateSeen(seen, init);
      var prev := Gate(seen, init);
      var all := Gate(seen, links).1;
      assert Gate(seen, links) == if link in prev.0 then prev
        else (prev.0 + {link}, prev.1 + [DetailRequest(link, |prev.0| + 1)]);
      forall i | 0 <= i < |all| ensures all[i].url !in seen && all[i].url in links {
        if i < |prev.1| {
          assert all[i] == prev.1[i];
        } else {
          assert all[i].url == link && link !in prev.0;
        }
      }
    }
  }

  /** No link is requested twice. */
  lemma {:induction false} GateDistinct(seen: set<string>, links: seq<string>)
    ensures forall i, j | 0 <= i < j < |Gate(seen, links).1| ::
      Gate(seen, links).1[i].url != Gate(seen, links).1[j].url
    decreases |links|
  {
    if links != [] {
      var init := links[..|links| - 1];
      var link := links[|links| - 1];
      GateDistinct(seen, init);
      GateCounts(seen, init);
      var prev := Gate(seen, init);
      var all := Gate(seen, links).1;
      assert Gate(seen, links) == if link in prev.0 then prev
        else (prev.0 + {link}, prev.1 + [DetailRequest(link, |prev.0| + 1)]);
      forall i, j | 0 <= i < j < |all| ensures all[i].url != all[j].url {
        if j < |prev.1| {
          assert all[i] == prev.1[i] && all[j] == prev.1[j];
        } else {
          assert all[i] == prev.1[i] && all[i].url in prev.0;
          assert all[j].url == link && link !in prev.0;
        }
      }
    }
  }

  /** Every link that had not been seen gets a request. */
  lemma {:induction false} GateCovers(seen: set<string>, links: seq<string>)
    ensures forall l | l in links && l !in seen ::
      exists i | 0 <= i < |Gate(seen, links).1| :: Gate(seen, links).1[i].url == l
    decreases |links|
  {
    if links != [] {
      var init := links[..|links| - 1];
      var link := links[|links| - 1];
      assert links == init + [link];
      GateCovers(seen, init);
      GateSeen(seen, init);
      var prev := Gate(seen, init);
      var all := Gate(seen, links).1;
      assert Gate(seen, links) == if link in prev.0 then prev
        else (prev.0 + {link}, prev.1 + [DetailRequest(link, |prev.0| + 1)]);
      assert prev.1 <= all;
      forall l | l in links && l !in seen
        ensures exists i | 0 <= i < |all| :: all[i].url == l
      {
        if l in init {
          var i :| 0 <= i < |prev.1| && prev.1[i].url == l;
          assert all[i] == prev.1[i];
        } else {
          assert l == link;
          if link !in prev.0 {
            assert all[|prev.1|].url == l;
          }
        }
      }
    }
  }

  /** The links of the anchors before the first one without `href`. */
  function LinksBefore(anchors: seq<Option<string>>): (r: seq<string>)
    ensures |r| <= |anchors|
    ensures forall i | 0 <= i < |r| :: anchors[i] == Some(r[i])
    ensures |r| < |anchors| ==> anchors[|r|].None?
    decreases |anchors|
  {
    if anchors == [] || anchors[0].None? then []
    else [anchors[0].value] + LinksBefore(anchors[1..])
  }

  /** `int(response.meta.get('cur_page') or 1)` */
  function PageNumber(curPage: Option<int>): int {
    match curPage
    case None => 1
    case Some(n) => if n == 0 then 1 else n
  }

  class LaptopSpider {
    /** `products_fetched`: source URLs already followed, in this run or restored from an earlier one. */
    var productsFetched: set<string>

    /** A spider whose seen set is the one restored at start-up (empty when nothing could be loaded). */
    constructor (restored: set<string>)
      ensures productsFetched == restored
    {
      productsFetched := restored;
    }

    /**
     * `parse`: the `href` of each of the listing page's review anchors, in
     * page order. An empty page is the last one and schedules nothing.
     * Otherwise the new links are followed; an anchor without `href` raises
     * KeyError, so the links after it are not read and no next listing page
     * is requested, while the requests already yielded stand. A page whose
     * anchors all have links ends by requesting the next listing page.
     */
    method Parse(curPage: Option<int>, anchors: seq<Option<string>>) returns (requests: seq<DetailRequest>, nextPage: Option<int>, ok: bool)
      modifies this
      ensures (productsFetched, requests) == Gate(old(productsFetched), LinksBefore(anchors))
      ensures old(productsFetched) <= productsFetched
      ensures ok <==> forall i | 0 <= i < |anchors| :: anchors[i].Some?
      ensures nextPage == if anchors != [] && ok then Some(PageNumber(curPage) + 1) else None
    {
      requests := [];
      if anchors == [] {
        return requests, None, true;
      }
      ghost var links := LinksBefore(anchors);
      var i := 0;
      while i < |anchors|
        invariant 0 <= i <= |links|
        invariant (productsFetched, requests) == Gate(old(productsFetched), links[..i])
      {
        match anchors[i] {
          case None =>
            assert links[..i] == links;
            GateSeen(old(productsFetched), links);
            return requests, None, false;
          case Some(link) =>
            GateStep(old(productsFetched), links, i);
            if link !in productsFetched {
              productsFetched := productsFetched + {link};
              requests := requests + [DetailRequest(link, |productsFetched|)];
            }
        }
        i := i + 1;
      }
      assert links[..i] == links;
      GateSeen(old(productsFetched), links);
      nextPage, ok := Some(PageNumber(curPage) + 1), true;
    }
  }
}
