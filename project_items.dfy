/** `getProjectItems` of project.js: the project's items are read 100 at a time, each request
    carrying the `endCursor` of the page before it, until a page says there is no next page.
    The GraphQL endpoint is the function `fetch` from the cursor sent to the page returned. */
module ProjectItems {
  import opened Wrappers
  import opened Seqs

  /** A project item: its node id and, through `content`, the title and number of the issue it
      holds (None when the item is not an issue, `content?.title` being `undefined`). */
  datatype Item = Item(id: string, title: Option<string>, number: Option<int>)

  datatype PageInfo = PageInfo(hasNextPage: bool, endCursor: Option<string>)

  /** One response: `res.node.items`. */
  datatype ItemPage = ItemPage(nodes: seq<Item>, pageInfo: PageInfo)

  /** The cursor sent with request `k`: null first, then the `endCursor` of the page before. */
  function CursorAt(fetch: Option<string> -> ItemPage, k: nat): Option<string> {
    if k == 0 then None else fetch(CursorAt(fetch, k - 1)).pageInfo.endCursor
  }

  /** The page returned by request `k`. */
  function PageAt(fetch: Option<string> -> ItemPage, k: nat): ItemPage {
    fetch(CursorAt(fetch, k))
  }

  /** Page `k` says there is nothing after it. */
  predicate IsLast(fetch: Option<string> -> ItemPage, k: nat) {
    !PageAt(fetch, k).pageInfo.hasNextPage
  }

  /** The nodes of the first `n` pages, concatenated in fetch order. */
  function ItemsOfPages(fetch: Option<string> -> ItemPage, n: nat): (items: seq<Item>)
    ensures n == 0 ==> items == []
  {
    if n == 0 then [] else ItemsOfPages(fetch, n - 1) + PageAt(fetch, n - 1).nodes
  }

  /** The loop `while (hasNextPage)`: returns the items of every page up to and including the
      first last page, and the cursors it sent, one per request. The source loops forever on an
      endpoint that always reports a next page; the precondition rules that out. */
  method GetProjectItems(fetch: Option<string> -> ItemPage) returns (items: seq<Item>, cursors: seq<Option<string>>)
    requires exists k: nat :: IsLast(fetch, k)
    ensures |cursors| >= 1 && IsLast(fetch, |cursors| - 1)
    ensures forall j :: 0 <= j < |cursors| - 1 ==> !IsLast(fetch, j)
    ensures forall j :: 0 <= j < |cursors| ==> cursors[j] == CursorAt(fetch, j)
    ensures items == ItemsOfPages(fetch, |cursors|)
  {
    ghost var bound: nat :| IsLast(fetch, bound);
    items := [];
    cursors := [];
    var hasNextPage := true;
    var after: Option<string> := None;
    while hasNextPage
      invariant cursors == CursorsUpTo(fetch, |cursors|)
      invariant items == ItemsOfPages(fetch, |cursors|)
      invariant hasNextPage ==> after == CursorAt(fetch, |cursors|) && NoLastBefore(fetch, |cursors|) && |cursors| <= bound
      invariant !hasNextPage ==> |cursors| >= 1 && IsLast(fetch, |cursors| - 1) && NoLastBefore(fetch, |cursors| - 1)
      decreases bound - |cursors|, hasNextPage
    {
      ghost var sent := |cursors|;
      cursors, items, hasNextPage, after := FetchNextPage(fetch, cursors, items, after);
      if hasNextPage {
        NoLastBeforeAll(fetch, sent + 1);
      }
    }
    CursorsUpToAll(fetch, |cursors|);
    NoLastBeforeAll(fetch, |cursors| - 1);
  }

  /** The cursors of the first `n` requests. */
  ghost function CursorsUpTo(fetch: Option<string> -> ItemPage, n: nat): seq<Option<string>> {
    if n == 0 then [] else CursorsUpTo(fetch, n - 1) + [CursorAt(fetch, n - 1)]
  }

  lemma {:induction false} CursorsUpToAll(fetch: Option<string> -> ItemPage, n: nat)
    ensures |CursorsUpTo(fetch, n)| == n
    ensures forall j :: 0 <= j < n ==> CursorsUpTo(fetch, n)[j] == CursorAt(fetch, j)
  {
    if n > 0 {
      CursorsUpToAll(fetch, n - 1);
    }
  }

  /** None of the first `n` pages is the last one. */
  ghost predicate NoLastBefore(fetch: Option<string> -> ItemPage, n: nat) {
    n == 0 || (NoLastBefore(fetch, n - 1) && !IsLast(fetch, n - 1))
  }

  lemma {:induction false} NoLastBeforeAll(fetch: Option<string> -> ItemPage, n: nat)
    requires NoLastBefore(fetch, n)
    ensures forall j :: 0 <= j < n ==> !IsLast(fetch, j)
  {
    if n > 0 {
      NoLastBeforeAll(fetch, n - 1);
    }
  }

  /** One turn of the loop: request the page after the cursors sent so far and append its
      nodes. */
  method FetchNextPage(fetch: Option<string> -> ItemPage, cursors: seq<Option<string>>, items: seq<Item>, after: Option<string>)
    returns (cursors': seq<Option<string>>, items': seq<Item>, hasNextPage: bool, after': Option<string>)
    requires after == CursorAt(fetch, |cursors|) && items == ItemsOfPages(fetch, |cursors|)
    ensures cursors' == cursors + [CursorAt(fetch, |cursors|)]
    ensures items' == ItemsOfPages(fetch, |cursors'|)
    ensures hasNextPage == !IsLast(fetch, |cursors|)
    ensures after' == CursorAt(fetch, |cursors'|)
  {
    var page := fetch(after);
    cursors' := cursors + [after];
    items' := items + page.nodes;
    hasNextPage := page.pageInfo.hasNextPage;
    after' := page.pageInfo.endCursor;
  }

  /** Request 0 carries no cursor and request `k + 1` carries the end cursor of page `k`. */
  lemma CursorChain(fetch: Option<string> -> ItemPage, k: nat)
    ensures CursorAt(fetch, 0) == None
    ensures CursorAt(fetch, k + 1) == PageAt(fetch, k).pageInfo.endCursor
  {
  }

  /** Appending pages: the items of `m + n` pages are those of the first `m` followed by those of
      the next `n`. */
  lemma {:induction false} ItemsOfPagesSplit(fetch: Option<string> -> ItemPage, m: nat, n: nat)
    ensures ItemsOfPages(fetch, m + n) ==
      ItemsOfPages(fetch, m) + Flatten(seq(n, i requires 0 <= i < n => PageAt(fetch, m + i).nodes))
  {
    var pages := seq(n, i requires 0 <= i < n => PageAt(fetch, m + i).nodes);
    if n > 0 {
      ItemsOfPagesSplit(fetch, m, n - 1);
      var init := seq(n - 1, i requires 0 <= i < n - 1 => PageAt(fetch, m + i).nodes);
      assert pages[..n - 1] == init;
    }
  }

  /** A single page with no next page is the whole listing. */
  lemma SinglePage(fetch: Option<string> -> ItemPage)
    requires IsLast(fetch, 0)
    ensures ItemsOfPages(fetch, 1) == fetch(None).nodes
  {
  }

  /** Every returned item is a node of some fetched page, and every node of a fetched page is
      returned. */
  lemma {:induction false} ItemsOfPagesMembers(fetch: Option<string> -> ItemPage, n: nat, it: Item)
    ensures it in ItemsOfPages(fetch, n) <==> exists k :: 0 <= k < n && it in PageAt(fetch, k).nodes
  {
    if n > 0 {
      ItemsOfPagesMembers(fetch, n - 1, it);
      if it in PageAt(fetch, n - 1).nodes {
        assert exists k :: 0 <= k < n && it in PageAt(fetch, k).nodes;
      }
    }
  }
}
