/** cleanIssues.js: every issue of the target repository is read, page by page, and the
    attribution block that copying left at the head of its body, `Original issue by @user on
    <timestamp>` followed by a blank line and `---`, is removed; an issue is updated only when
    its body held such a block. The listing is the function `listPage` from page number to
    the issues of that page. */
module CleanIssues {
  import opened Wrappers
  import opened Text
  import opened Seqs

  // ---------------------------------------------------------------------------
  // blockToRemoveRegex: /Original issue by @\w+ on \d{4}-\d{2}-\d{2}T\d{2}:\d{2}:\d{2}Z\n\n---\n?/

  /** The fixed text the block starts with. */
  const Lead: string := "Original issue by @"

  /** `Original issue by @` at position `i`. */
  predicate LeadAt(s: string, i: nat) {
    i + 19 <= |s| && forall t :: 0 <= t < 19 ==> s[i + t] == Lead[t]
  }

  /** Length of the run of `\w` characters starting at `from`; `\w+` is greedy, and the space
      after it is not a word character, so the match always takes the whole run. */
  function WordRun(s: string, from: nat): (n: nat)
    requires from <= |s|
    ensures from + n <= |s|
    decreases |s| - from
  {
    if from < |s| && IsWordChar(s[from]) then WordRun(s, from + 1) + 1 else 0
  }

  /** The run holds word characters only and stops before one that is not. */
  lemma {:induction false} WordRunMaximal(s: string, from: nat)
    requires from <= |s|
    ensures forall t :: from <= t < from + WordRun(s, from) ==> IsWordChar(s[t])
    ensures from + WordRun(s, from) < |s| ==> !IsWordChar(s[from + WordRun(s, from)])
    decreases |s| - from
  {
    if from < |s| && IsWordChar(s[from]) {
      WordRunMaximal(s, from + 1);
    }
  }

  /** `\d{4}-\d{2}-\d{2}T\d{2}:\d{2}:\d{2}Z` at position `p`: twenty characters. */
  predicate StampAt(s: string, p: nat) {
    p + 20 <= |s| &&
    IsDigit(s[p]) && IsDigit(s[p + 1]) && IsDigit(s[p + 2]) && IsDigit(s[p + 3]) && s[p + 4] == '-' &&
    IsDigit(s[p + 5]) && IsDigit(s[p + 6]) && s[p + 7] == '-' && IsDigit(s[p + 8]) && IsDigit(s[p + 9]) &&
    s[p + 10] == 'T' && IsDigit(s[p + 11]) && IsDigit(s[p + 12]) && s[p + 13] == ':' &&
    IsDigit(s[p + 14]) && IsDigit(s[p + 15]) && s[p + 16] == ':' && IsDigit(s[p + 17]) &&
    IsDigit(s[p + 18]) && s[p + 19] == 'Z'
  }

  /** ` on ` at position `p`. */
  predicate OnAt(s: string, p: nat) {
    p + 4 <= |s| && s[p] == ' ' && s[p + 1] == 'o' && s[p + 2] == 'n' && s[p + 3] == ' '
  }

  /** `\n\n---` at position `p`. */
  predicate RuleAt(s: string, p: nat) {
    p + 5 <= |s| && s[p] == '\n' && s[p + 1] == '\n' && s[p + 2] == '-' && s[p + 3] == '-' && s[p + 4] == '-'
  }

  /** The block matches at position `i`. */
  predicate BlockAt(s: string, i: nat) {
    LeadAt(s, i) &&
    var w := WordRun(s, i + 19);
    w > 0 && OnAt(s, i + 19 + w) && StampAt(s, i + 23 + w) && RuleAt(s, i + 43 + w)
  }

  /** Length of the block matched at `i`: the optional newline is taken when it is there. */
  function BlockLength(s: string, i: nat): (n: nat)
    requires BlockAt(s, i)
    ensures 48 <= n && i + n <= |s|
  {
    var w := WordRun(s, i + 19);
    48 + w + if i + 48 + w < |s| && s[i + 48 + w] == '\n' then 1 else 0
  }

  /** The leftmost match at or after `from`. */
  function FirstBlock(s: string, from: nat): (r: Option<nat>)
    ensures r.Some? ==> from <= r.value < |s| && BlockAt(s, r.value)
    decreases |s| - from
  {
    if |s| <= from then None
    else if BlockAt(s, from) then Some(from)
    else FirstBlock(s, from + 1)
  }

  /** No match starts between `from` and the one found, nor anywhere after `from` when none is
      found. */
  lemma {:induction false} FirstBlockLeftmost(s: string, from: nat)
    ensures FirstBlock(s, from).Some? ==> forall i :: from <= i < FirstBlock(s, from).value ==> !BlockAt(s, i)
    ensures FirstBlock(s, from).None? ==> forall i :: from <= i < |s| ==> !BlockAt(s, i)
    decreases |s| - from
  {
    if from < |s| && !BlockAt(s, from) {
      FirstBlockLeftmost(s, from + 1);
    }
  }

  /** `body.replace(blockToRemoveRegex, "")`: the first block is cut out. */
  function CleanBody(body: string): (r: string)
    ensures |r| <= |body|
  {
    match FirstBlock(body, 0)
    case None => body
    case Some(i) => body[..i] + body[i + BlockLength(body, i)..]
  }

  /** Only the leftmost block goes: the text before it and the text after it are kept as they
      are, and a body without a block comes back unchanged. */
  lemma CleanBodyCutsFirstBlock(body: string)
    ensures FirstBlock(body, 0).None? ==> CleanBody(body) == body
    ensures FirstBlock(body, 0).Some? ==>
      (var i := FirstBlock(body, 0).value;
       CleanBody(body) == body[..i] + body[i + BlockLength(body, i)..] &&
       forall j :: 0 <= j < i ==> !BlockAt(body, j))
  {
    FirstBlockLeftmost(body, 0);
    if FirstBlock(body, 0).Some? {
      var i := FirstBlock(body, 0).value;
      assert CleanBody(body) == body[..i] + body[i + BlockLength(body, i)..];
    }
  }

  /** A block occurs somewhere in the body. */
  ghost predicate HasBlock(body: string) {
    exists i :: 0 <= i < |body| && BlockAt(body, i)
  }

  /** Cleaning changes a body exactly when a block occurs in it. */
  lemma CleanBodyChanges(body: string)
    ensures CleanBody(body) != body <==> HasBlock(body)
  {
    var r := FirstBlock(body, 0);
    FirstBlockLeftmost(body, 0);
    if r.Some? {
      assert |CleanBody(body)| < |body|;
    }
  }

  // ---------------------------------------------------------------------------
  // a block as the copying script writes it

  /** A block for `user` and `stamp`, with or without its final newline. */
  function Block(user: string, stamp: string, newline: bool): string {
    Lead + user + " on " + stamp + "\n\n---" + if newline then "\n" else ""
  }

  predicate WordText(user: string) {
    user != [] && forall t :: 0 <= t < |user| ==> IsWordChar(user[t])
  }

  /** Where the head of a block written after `pre` stands: the lead, the user and ` on `. */
  lemma BlockHead(pre: string, user: string, stamp: string, newline: bool, post: string)
    requires |stamp| == 20
    ensures var s := pre + Block(user, stamp, newline) + post; var w := |user|; var i := |pre|;
      s[..i] == pre && i + 48 + w <= |s| && (forall t :: 0 <= t < 19 ==> s[i + t] == Lead[t]) &&
      s[i + 19..i + 19 + w] == user && OnAt(s, i + 19 + w)
  {
    var s := pre + Block(user, stamp, newline) + post;
    var rest := " on " + stamp + "\n\n---" + (if newline then "\n" else "") + post;
    assert s == pre + (Lead + (user + rest));
    var i, w := |pre|, |user|;
    assert s[i..i + 19] == Lead;
    assert s[i + 19 + w..i + 23 + w] == " on ";
  }

  /** Where the tail of a block written after `pre` stands: the stamp, the rule, the optional
      newline and then `post`. */
  lemma BlockTail(pre: string, user: string, stamp: string, newline: bool, post: string)
    requires |stamp| == 20
    ensures var s := pre + Block(user, stamp, newline) + post; var w := |user|; var i := |pre|;
      i + 48 + w <= |s| && s[i + 23 + w..i + 43 + w] == stamp && RuleAt(s, i + 43 + w) &&
      (newline ==> i + 48 + w < |s| && s[i + 48 + w] == '\n') &&
      s[i + 48 + w + (if newline then 1 else 0)..] == post
  {
    var s := pre + Block(user, stamp, newline) + post;
    var head := pre + Lead + user + " on ";
    var tail := (if newline then "\n" else "") + post;
    assert s == head + (stamp + ("\n\n---" + tail));
    var i, w := |pre|, |user|;
    assert |head| == i + 23 + w;
    assert s[i + 43 + w..i + 48 + w] == "\n\n---";
  }

  /** No block starts in a text without `@` that is followed by a block: the `@` of the lead
      would have to lie in that text, or the lead would overlap itself. */
  lemma NoBlockBefore(s: string, start: nat, i: nat)
    requires start + 19 <= |s| && forall t :: 0 <= t < 19 ==> s[start + t] == Lead[t]
    requires forall t :: 0 <= t < start ==> s[t] != '@'
    requires i < start
    ensures !BlockAt(s, i)
  {
    LeadLetters();
    if i + 18 < start {
      assert s[i + 18] != Lead[18];
    } else if i + 19 <= |s| {
      assert s[i + (start - i)] == 'O' != Lead[start - i];
    }
  }

  /** The lead has its only `O` first and ends in `@`. */
  lemma LeadLetters()
    ensures Lead[0] == 'O' && Lead[18] == '@' && forall d :: 1 <= d < 19 ==> Lead[d] != 'O'
  {
  }

  /** `s` holds `pre` (without `@`), then a block for `user` ending at `e`, then `post`. */
  predicate LaidOut(s: string, pre: string, user: string, post: string, i: nat, w: nat, e: nat) {
    i == |pre| && w == |user| && WordText(user) && e == i + 48 + w && e <= |s| &&
    s[..i] == pre && (forall t :: 0 <= t < i ==> s[t] != '@') &&
    (forall t :: 0 <= t < 19 ==> s[i + t] == Lead[t]) &&
    s[i + 19..i + 19 + w] == user && OnAt(s, i + 19 + w) &&
    StampAt(s, i + 23 + w) && RuleAt(s, i + 43 + w) &&
    ((e < |s| && s[e] == '\n' && s[e + 1..] == post) || ((e == |s| || s[e] != '\n') && s[e..] == post))
  }

  /** A text laid out as a block after an `@`-free prefix is cleaned to that prefix and what
      follows the block. */
  lemma CleanLaidOut(s: string, pre: string, user: string, post: string, i: nat, w: nat, e: nat)
    requires LaidOut(s, pre, user, post, i, w, e)
    ensures CleanBody(s) == pre + post
  {
    BlockLaidOut(s, user, i, w);
    NoBlockBeforeAll(s, i);
    FirstBlockIs(s, i);
    CleanBodyAt(s, i);
    if e < |s| && s[e] == '\n' {
      assert BlockLength(s, i) == 49 + w;
    } else {
      assert BlockLength(s, i) == 48 + w;
    }
    assert s[i + BlockLength(s, i)..] == post;
  }

  /** The block laid out at `i` matches, and its match ends after `Rule`, taking one newline
      when there is one. */
  lemma BlockLaidOut(s: string, user: string, i: nat, w: nat)
    requires w == |user| && WordText(user) && i + 48 + w <= |s|
    requires forall t :: 0 <= t < 19 ==> s[i + t] == Lead[t]
    requires s[i + 19..i + 19 + w] == user && OnAt(s, i + 19 + w)
    requires StampAt(s, i + 23 + w) && RuleAt(s, i + 43 + w)
    ensures BlockAt(s, i)
    ensures BlockLength(s, i) == 48 + w + if i + 48 + w < |s| && s[i + 48 + w] == '\n' then 1 else 0
  {
    WordRunOf(s, i + 19, user);
  }

  /** No block starts before `i` when the lead stands at `i` and no `@` before it. */
  lemma NoBlockBeforeAll(s: string, i: nat)
    requires i + 19 <= |s| && forall t :: 0 <= t < 19 ==> s[i + t] == Lead[t]
    requires forall t :: 0 <= t < i ==> s[t] != '@'
    ensures forall j :: 0 <= j < i ==> !BlockAt(s, j)
  {
    forall j | 0 <= j < i ensures !BlockAt(s, j) {
      NoBlockBefore(s, i, j);
    }
  }

  /** The leftmost block is the one at `i` when none starts before it. */
  lemma FirstBlockIs(s: string, i: nat)
    requires i < |s| && BlockAt(s, i) && forall j :: 0 <= j < i ==> !BlockAt(s, j)
    ensures FirstBlock(s, 0) == Some(i)
  {
    FirstBlockLeftmost(s, 0);
  }

  lemma CleanBodyAt(s: string, i: nat)
    requires FirstBlock(s, 0) == Some(i)
    ensures CleanBody(s) == s[..i] + s[i + BlockLength(s, i)..]
  {
  }

  /** A body made of a text without `@`, one block and anything after it (not starting with a
      newline when the block has none) is cleaned to the text and what follows the block. */
  lemma CleanWrittenBlock(pre: string, user: string, stamp: string, newline: bool, post: string)
    requires '@' !in pre && WordText(user) && |stamp| == 20 && StampAt(stamp, 0)
    requires !newline ==> post == [] || post[0] != '\n'
    ensures CleanBody(pre + Block(user, stamp, newline) + post) == pre + post
  {
    var s := pre + Block(user, stamp, newline) + post;
    var i, w := |pre|, |user|;
    var e := i + 48 + w;
    BlockHead(pre, user, stamp, newline, post);
    BlockTail(pre, user, stamp, newline, post);
    NoAtInPrefix(s, pre);
    StampMoved(s, stamp, i + 23 + w);
    TailAfterBlock(s, e, newline, post);
    CleanLaidOut(s, pre, user, post, i, w, e);
  }

  /** The prefix of a text that equals an `@`-free string holds no `@`. */
  lemma NoAtInPrefix(s: string, pre: string)
    requires |pre| <= |s| && s[..|pre|] == pre && '@' !in pre
    ensures forall t :: 0 <= t < |pre| ==> s[t] != '@'
  {
    forall t | 0 <= t < |pre| ensures s[t] != '@' {
      assert s[t] == s[..|pre|][t];
    }
  }

  /** A timestamp copied into a text still matches there. */
  lemma StampMoved(s: string, stamp: string, p: nat)
    requires |stamp| == 20 && StampAt(stamp, 0) && p + 20 <= |s| && s[p..p + 20] == stamp
    ensures StampAt(s, p)
  {
    forall t | 0 <= t < 20 ensures s[p + t] == stamp[t] {
      assert s[p + t] == s[p..p + 20][t];
    }
  }

  /** What follows the block's rule: its newline, when written, and then `post`; without the
      newline, `post` must not start with one for the match to end where the block does. */
  lemma TailAfterBlock(s: string, e: nat, newline: bool, post: string)
    requires e <= |s| && (newline ==> e < |s| && s[e] == '\n')
    requires s[e + (if newline then 1 else 0)..] == post
    requires !newline ==> post == [] || post[0] != '\n'
    ensures (e < |s| && s[e] == '\n' && s[e + 1..] == post) || ((e == |s| || s[e] != '\n') && s[e..] == post)
  {
    if !newline && e < |s| {
      assert s[e] == s[e..][0];
    }
  }

  /** The word run after the lead is exactly the user name. */
  lemma WordRunOf(s: string, from: nat, user: string)
    requires WordText(user) && from + |user| + 1 <= |s| && s[from..from + |user|] == user
    requires s[from + |user|] == ' '
    ensures WordRun(s, from) == |user|
  {
    var n := |user|;
    forall t | from <= t < from + n ensures IsWordChar(s[t]) {
      assert s[t] == user[t - from];
    }
    WordRunExactly(s, from, n);
  }

  lemma {:induction false} WordRunExactly(s: string, from: nat, n: nat)
    requires from + n < |s| && !IsWordChar(s[from + n])
    requires forall t :: from <= t < from + n ==> IsWordChar(s[t])
    ensures WordRun(s, from) == n
    decreases n
  {
    if n > 0 {
      WordRunExactly(s, from + 1, n - 1);
    }
  }

  // ---------------------------------------------------------------------------
  // the page loop

  /** An issue as `issues.listForRepo` returns it (`body` may be null). */
  datatype Issue = Issue(number: nat, body: Option<string>)

  /** An `issues.update` request. */
  datatype Update = Update(number: nat, body: string)

  /** The issues of one page of the listing, for pages 1, 2, 3, ... */
  type ListPage = nat -> seq<Issue>

  /** A body JavaScript treats as true: present and not empty. */
  predicate HasBody(issue: Issue) {
    issue.body.Some? && issue.body.value != ""
  }

  /** The update one issue causes: none without a body or when cleaning changes nothing. */
  function UpdateFor(issue: Issue): (u: seq<Update>)
    ensures u != [] <==> HasBody(issue) && CleanBody(issue.body.value) != issue.body.value
    ensures u != [] ==> u == [Update(issue.number, CleanBody(issue.body.value))]
  {
    if !HasBody(issue) then []
    else
      var cleaned := CleanBody(issue.body.value);
      if cleaned != issue.body.value then [Update(issue.number, cleaned)] else []
  }

  /** The updates of one page, in listing order. */
  function PageUpdates(issues: seq<Issue>): seq<Update> {
    if issues == [] then [] else PageUpdates(issues[..|issues| - 1]) + UpdateFor(issues[|issues| - 1])
  }

  /** The updates of pages 1 to `n`. */
  function UpdatesOfPages(listPage: ListPage, n: nat): seq<Update> {
    if n == 0 then [] else UpdatesOfPages(listPage, n - 1) + PageUpdates(listPage(n))
  }

  /** The update `u` is the one for `issue`: its body holds a block, and `u` carries the
      issue's number and the cleaned body. */
  ghost predicate Sends(issue: Issue, u: Update) {
    HasBody(issue) && HasBlock(issue.body.value) && u == Update(issue.number, CleanBody(issue.body.value))
  }

  /** One issue causes exactly the update it `Sends`. */
  lemma UpdateForExactly(issue: Issue, u: Update)
    ensures u in UpdateFor(issue) <==> Sends(issue, u)
  {
    if HasBody(issue) {
      CleanBodyChanges(issue.body.value);
    }
  }

  /** The update of the issue at `k` is among those of the page. */
  lemma {:induction false} PageUpdateFrom(issues: seq<Issue>, k: nat, u: Update)
    requires k < |issues| && u in UpdateFor(issues[k])
    ensures u in PageUpdates(issues)
  {
    var n := |issues| - 1;
    if k < n {
      assert issues[..n][k] == issues[k];
      PageUpdateFrom(issues[..n], k, u);
    }
  }

  /** Each update of the page is that of one of its issues. */
  lemma {:induction false} PageUpdateSource(issues: seq<Issue>, u: Update) returns (k: nat)
    requires u in PageUpdates(issues)
    ensures k < |issues| && u in UpdateFor(issues[k])
  {
    var n := |issues| - 1;
    if u in UpdateFor(issues[n]) {
      k := n;
    } else {
      k := PageUpdateSource(issues[..n], u);
      assert issues[..n][k] == issues[k];
    }
  }

  /** An update is sent for an issue of the page exactly when its body holds a block, with the
      same number and the body cleaned. */
  lemma PageUpdatesExactly(issues: seq<Issue>, u: Update)
    ensures u in PageUpdates(issues) <==> exists k :: 0 <= k < |issues| && Sends(issues[k], u)
  {
    if u in PageUpdates(issues) {
      var k := PageUpdateSource(issues, u);
      UpdateForExactly(issues[k], u);
    }
    if k :| 0 <= k < |issues| && Sends(issues[k], u) {
      UpdateForExactly(issues[k], u);
      PageUpdateFrom(issues, k, u);
    }
  }

  /** The updates of the first `k + 1` issues: those of the first `k`, then that of issue `k`. */
  lemma PageUpdatesStep(issues: seq<Issue>, k: nat)
    requires k < |issues|
    ensures PageUpdates(issues[..k + 1]) == PageUpdates(issues[..k]) + UpdateFor(issues[k])
  {
    assert issues[..k + 1][..k] == issues[..k];
  }

  /** The loop over one page: skip issues without a body, update those whose body changes. */
  method CleanPage(issues: seq<Issue>) returns (updates: seq<Update>)
    ensures updates == PageUpdates(issues)
  {
    updates := [];
    for k := 0 to |issues|
      invariant updates == PageUpdates(issues[..k])
    {
      var issue := issues[k];
      PageUpdatesStep(issues, k);
      if !HasBody(issue) {
        continue;
      }
      var cleanedBody := CleanBody(issue.body.value);
      if cleanedBody != issue.body.value {
        updates := updates + [Update(issue.number, cleanedBody)];
      }
    }
    assert issues[..|issues|] == issues;
  }

  /** The listing ends: some page is empty. The source reads pages forever otherwise. */
  ghost predicate ListingEnds(listPage: ListPage) {
    exists n: nat :: 1 <= n && listPage(n) == []
  }

  /** Pages `p` to `n` all hold issues. */
  ghost predicate PagesFrom(listPage: ListPage, p: nat, n: nat)
    decreases n - p + 1
  {
    p > n || (listPage(p) != [] && PagesFrom(listPage, p + 1, n))
  }

  /** A run of pages with issues grows by one page that holds issues. */
  lemma {:induction false} PagesFromExtend(listPage: ListPage, p: nat, n: nat)
    requires p <= n + 1 && PagesFrom(listPage, p, n) && listPage(n + 1) != []
    ensures PagesFrom(listPage, p, n + 1)
    decreases n - p + 1
  {
    if p <= n {
      PagesFromExtend(listPage, p + 1, n);
    }
  }

  /** Every page of such a run holds issues. */
  lemma {:induction false} PagesFromAll(listPage: ListPage, p: nat, n: nat)
    requires PagesFrom(listPage, p, n)
    ensures forall q :: p <= q <= n ==> listPage(q) != []
    decreases n - p + 1
  {
    if p <= n {
      PagesFromAll(listPage, p + 1, n);
    }
  }

  /** An empty page lies after every run of pages with issues that starts at `p`. */
  lemma {:induction false} PagesFromBefore(listPage: ListPage, p: nat, n: nat, empty: nat)
    requires PagesFrom(listPage, p, n) && p <= empty && listPage(empty) == []
    ensures n < empty
    decreases n - p + 1
  {
    if p <= n {
      PagesFromBefore(listPage, p + 1, n, empty);
    }
  }

  /** One turn of the page loop: page `done + 1` is cleaned and its updates follow those of
      the pages before it. */
  method CleanNextPage(listPage: ListPage, done: nat, before: seq<Update>) returns (after: seq<Update>)
    requires before == UpdatesOfPages(listPage, done)
    ensures after == UpdatesOfPages(listPage, done + 1)
  {
    var pageUpdates := CleanPage(listPage(done + 1));
    after := before + pageUpdates;
  }

  /** After `done` turns of the page loop: pages 1 to `done` held issues, the empty page
      `last` is still ahead, and the updates are those of the pages read. */
  ghost predicate ReadSoFar(listPage: ListPage, last: nat, done: nat, updates: seq<Update>) {
    done < last && PagesFrom(listPage, 1, done) && updates == UpdatesOfPages(listPage, done)
  }

  /** `cleanIssues()`: pages 1, 2, 3, ... are read until the first empty one; returns the
      number of pages that held issues (the empty page is the one after them) and the updates
      sent, in order. */
  method CleanAllIssues(listPage: ListPage) returns (pages: nat, updates: seq<Update>)
    requires ListingEnds(listPage)
    ensures listPage(pages + 1) == []
    ensures forall p :: 1 <= p <= pages ==> listPage(p) != []
    ensures updates == UpdatesOfPages(listPage, pages)
  {
    ghost var last: nat :| 1 <= last && listPage(last) == [];
    var done: nat := 0;  // pages read so far, all of them holding issues
    updates := [];
    while true
      invariant ReadSoFar(listPage, last, done, updates)
      decreases last - done
    {
      var issues := listPage(done + 1);
      if |issues| == 0 {
        break;
      }
      PagesFromExtend(listPage, 1, done);
      PagesFromBefore(listPage, 1, done + 1, last);
      updates := CleanNextPage(listPage, done, updates);
      done := done + 1;
    }
    PagesFromAll(listPage, 1, done);
    pages := done;
  }
}
