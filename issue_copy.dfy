/** index.js: the milestones of the origin repository are created in the target one and their
    new numbers remembered by title; then every record of `update.tsv` becomes a new issue
    whose body is fetched from the origin issue the record links to, and whose creation is
    retried with a linear backoff for as long as GitHub answers with its secondary rate limit.
    The REST calls are data: the outcome of each `createMilestone`, the origin issue bodies as
    a function of owner, repository and number, and one scripted list of `issues.create`
    outcomes per record. */
module IssueCopy {
  import opened Wrappers
  import opened Text
  import opened Seqs
  import opened ProjectTsv

  // ---------------------------------------------------------------------------
  // copyMilestones

  /** A milestone of the origin repository as `listMilestones` returns it. */
  datatype OriginMilestone = OriginMilestone(title: string, state: string, description: Option<string>, dueOn: Option<string>)

  /** The `createMilestone` request for the target repository. */
  datatype MilestoneRequest = MilestoneRequest(title: string, state: string, description: Option<string>, dueOn: Option<string>)

  /** `milestoneData`: title, state and description are copied, `due_on` only when the origin
      milestone has one. */
  function MilestoneRequestFor(m: OriginMilestone): (r: MilestoneRequest)
    ensures r.title == m.title && r.state == m.state && r.description == m.description
    ensures r.dueOn.Some? <==> Truthy(m.dueOn)
    ensures r.dueOn.Some? ==> r.dueOn == m.dueOn
  {
    MilestoneRequest(m.title, m.state, m.description, if Truthy(m.dueOn) then m.dueOn else None)
  }

  /** `milestoneMap` after the first `n` milestones: `created[i]` is the number the target
      repository gave milestone `i`, or None when its creation threw. */
  function MilestoneMapOf(ms: seq<OriginMilestone>, created: seq<Option<int>>, n: nat): map<string, int>
    requires n <= |ms| && |created| == |ms|
  {
    if n == 0 then map[]
    else
      var m := MilestoneMapOf(ms, created, n - 1);
      if created[n - 1].Some? then m[ms[n - 1].title := created[n - 1].value] else m
  }

  /** A title is in the map exactly when some milestone with that title was created. */
  lemma {:induction false} MilestoneMapKeys(ms: seq<OriginMilestone>, created: seq<Option<int>>, n: nat, title: string)
    requires n <= |ms| && |created| == |ms|
    ensures title in MilestoneMapOf(ms, created, n) <==>
      exists i :: 0 <= i < n && created[i].Some? && ms[i].title == title
  {
    if n > 0 {
      MilestoneMapKeys(ms, created, n - 1, title);
    }
  }

  /** The number under a title is the one of the LAST created milestone with that title. */
  lemma {:induction false} MilestoneMapLast(ms: seq<OriginMilestone>, created: seq<Option<int>>, n: nat, i: nat)
    requires n <= |ms| && |created| == |ms| && i < n && created[i].Some?
    requires forall j :: i < j < n && created[j].Some? ==> ms[j].title != ms[i].title
    ensures ms[i].title in MilestoneMapOf(ms, created, n)
    ensures MilestoneMapOf(ms, created, n)[ms[i].title] == created[i].value
  {
    if i < n - 1 {
      MilestoneMapLast(ms, created, n - 1, i);
    }
  }

  /** The number under a title was given to some origin milestone of that title. */
  lemma {:induction false} MilestoneMapValue(ms: seq<OriginMilestone>, created: seq<Option<int>>, n: nat, title: string)
    requires n <= |ms| && |created| == |ms| && title in MilestoneMapOf(ms, created, n)
    ensures exists i :: 0 <= i < n && created[i] == Some(MilestoneMapOf(ms, created, n)[title]) && ms[i].title == title
  {
    assert n > 0;
    if created[n - 1].Some? && ms[n - 1].title == title {
      assert created[n - 1] == Some(MilestoneMapOf(ms, created, n)[title]);
    } else {
      MilestoneMapValue(ms, created, n - 1, title);
      var i :| 0 <= i < n - 1 && created[i] == Some(MilestoneMapOf(ms, created, n - 1)[title]) && ms[i].title == title;
      assert created[i] == Some(MilestoneMapOf(ms, created, n)[title]);
    }
  }

  /** `m` maps exactly the titles of the created milestones, each to the number one milestone
      of that title received. */
  ghost predicate MapsCreated(ms: seq<OriginMilestone>, created: seq<Option<int>>, m: map<string, int>) {
    |created| == |ms| &&
    (forall title :: title in m <==> exists i :: 0 <= i < |ms| && created[i].Some? && ms[i].title == title) &&
    (forall title :: title in m ==> exists i :: 0 <= i < |ms| && created[i] == Some(m[title]) && ms[i].title == title)
  }

  /** The map `copyMilestones()` builds is such a map. */
  lemma MilestoneMapCreated(ms: seq<OriginMilestone>, created: seq<Option<int>>)
    requires |created| == |ms|
    ensures MapsCreated(ms, created, MilestoneMapOf(ms, created, |ms|))
  {
    forall title
      ensures title in MilestoneMapOf(ms, created, |ms|) <==>
        exists i :: 0 <= i < |ms| && created[i].Some? && ms[i].title == title
    {
      MilestoneMapKeys(ms, created, |ms|, title);
    }
    forall title | title in MilestoneMapOf(ms, created, |ms|)
      ensures exists i :: 0 <= i < |ms| && created[i] == Some(MilestoneMapOf(ms, created, |ms|)[title]) && ms[i].title == title
    {
      MilestoneMapValue(ms, created, |ms|, title);
    }
  }

  /** `copyMilestones()`: one creation request per origin milestone, in order, and the map
      from title to created number. */
  method CopyMilestones(ms: seq<OriginMilestone>, created: seq<Option<int>>)
    returns (requests: seq<MilestoneRequest>, milestoneMap: map<string, int>)
    requires |created| == |ms|
    ensures |requests| == |ms| && forall i :: 0 <= i < |ms| ==> requests[i] == MilestoneRequestFor(ms[i])
    ensures milestoneMap == MilestoneMapOf(ms, created, |ms|)
    ensures MapsCreated(ms, created, milestoneMap)
  {
    requests := [];
    milestoneMap := map[];
    for i := 0 to |ms|
      invariant |requests| == i && forall j :: 0 <= j < i ==> requests[j] == MilestoneRequestFor(ms[j])
      invariant milestoneMap == MilestoneMapOf(ms, created, i)
    {
      var m := ms[i];
      var data := MilestoneRequest(m.title, m.state, m.description, None);
      if Truthy(m.dueOn) {
        data := data.(dueOn := m.dueOn);
      }
      requests := requests + [data];
      if created[i].Some? {
        milestoneMap := milestoneMap[m.title := created[i].value];
      }
    }
    MilestoneMapCreated(ms, created);
  }

  // ---------------------------------------------------------------------------
  // the origin issue link: /github.com\/(.+?)\/(.+?)\/issues\/(\d+)/

  /** `.` of a JavaScript regular expression: anything but a line terminator. */
  predicate LineChar(c: char) {
    c != '\n' && c != '\r' && c != '\U{2028}' && c != '\U{2029}'
  }

  predicate NoLineBreak(s: string) {
    forall i :: 0 <= i < |s| ==> LineChar(s[i])
  }

  /** `github.com/` at position `i`; the unescaped `.` matches any character of a line. */
  predicate HostAt(s: string, i: nat) {
    i + 11 <= |s| && s[i] == 'g' && s[i + 1] == 'i' && s[i + 2] == 't' && s[i + 3] == 'h' &&
    s[i + 4] == 'u' && s[i + 5] == 'b' && LineChar(s[i + 6]) && s[i + 7] == 'c' && s[i + 8] == 'o' &&
    s[i + 9] == 'm' && s[i + 10] == '/'
  }

  /** `/issues/` at position `k`. */
  predicate IssuesAt(s: string, k: nat) {
    k + 8 <= |s| && s[k] == '/' && s[k + 1] == 'i' && s[k + 2] == 's' && s[k + 3] == 's' &&
    s[k + 4] == 'u' && s[k + 5] == 'e' && s[k + 6] == 's' && s[k + 7] == '/'
  }

  /** The repository group runs from `j + 1` to `k`, and `/issues/` and a digit follow it. */
  predicate RepoEndAt(s: string, j: nat, k: nat) {
    j + 1 < k && k + 9 <= |s| && NoLineBreak(s[j + 1..k]) && IssuesAt(s, k) && IsDigit(s[k + 8])
  }

  /** The lazy repository group: its shortest end at or after `from` for the `/` at `j`. */
  function FirstRepoEnd(s: string, j: nat, from: nat): (r: Option<nat>)
    ensures r.Some? ==> from <= r.value && RepoEndAt(s, j, r.value)
    ensures r.Some? ==> forall k :: from <= k < r.value ==> !RepoEndAt(s, j, k)
    ensures r.None? ==> forall k :: from <= k < |s| ==> !RepoEndAt(s, j, k)
    decreases |s| - from
  {
    if |s| <= from then None
    else if RepoEndAt(s, j, from) then Some(from)
    else FirstRepoEnd(s, j, from + 1)
  }

  /** The owner group, started at `i + 11`, can end at the `/` at `j` with a match after it. */
  predicate OwnerEndAt(s: string, i: nat, j: nat) {
    i + 11 < j < |s| && s[j] == '/' && NoLineBreak(s[i + 11..j]) && FirstRepoEnd(s, j, j + 2).Some?
  }

  /** The lazy owner group: its shortest end at or after `from` for a match at `i`. */
  function FirstOwnerEnd(s: string, i: nat, from: nat): (r: Option<nat>)
    ensures r.Some? ==> from <= r.value && OwnerEndAt(s, i, r.value)
    ensures r.Some? ==> forall j :: from <= j < r.value ==> !OwnerEndAt(s, i, j)
    ensures r.None? ==> forall j :: from <= j < |s| ==> !OwnerEndAt(s, i, j)
    decreases |s| - from
  {
    if |s| <= from then None
    else if OwnerEndAt(s, i, from) then Some(from)
    else FirstOwnerEnd(s, i, from + 1)
  }

  /** The pattern matches at position `i`. */
  predicate MatchAt(s: string, i: nat) {
    HostAt(s, i) && FirstOwnerEnd(s, i, i + 12).Some?
  }

  /** The leftmost match at or after `from`. */
  function FirstMatch(s: string, from: nat): (r: Option<nat>)
    ensures r.Some? ==> from <= r.value < |s| && MatchAt(s, r.value)
    ensures r.Some? ==> forall i :: from <= i < r.value ==> !MatchAt(s, i)
    ensures r.None? ==> forall i :: from <= i < |s| ==> !MatchAt(s, i)
    decreases |s| - from
  {
    if |s| <= from then None
    else if MatchAt(s, from) then Some(from)
    else FirstMatch(s, from + 1)
  }

  /** The three captures: owner, repository and issue number. */
  datatype IssueRef = IssueRef(owner: string, repo: string, number: nat)

  /** `url.match(...)`: the leftmost match, its owner and repository as short as the rest of the
      pattern allows, and the number the whole digit run after `/issues/` spells. */
  function MatchIssueUrl(s: string): (r: Option<IssueRef>)
    ensures r.None? <==> forall i :: 0 <= i < |s| ==> !MatchAt(s, i)
  {
    match FirstMatch(s, 0)
    case None => None
    case Some(i) =>
      var j := FirstOwnerEnd(s, i, i + 12).value;
      var k := FirstRepoEnd(s, j, j + 2).value;
      Some(Captures(s, i, j, k))
  }

  /** The owner between `i + 11` and `j`, the repository between `j + 1` and `k`, and the value
      of the whole digit run after `/issues/`. */
  function Captures(s: string, i: nat, j: nat, k: nat): IssueRef
    requires i + 11 <= j < k && k + 8 <= |s|
  {
    IssueRef(s[i + 11..j], s[j + 1..k], DigitRunValue(s, k + 8))
  }

  /** A path segment: not empty, no `/` and no line break. */
  predicate Segment(p: string) {
    p != [] && '/' !in p && NoLineBreak(p)
  }

  lemma NoLineBreakAppend(x: string, y: string)
    requires NoLineBreak(x) && NoLineBreak(y)
    ensures NoLineBreak(x + y)
  {
    assert forall i :: 0 <= i < |x + y| ==> (x + y)[i] == if i < |x| then x[i] else y[i - |x|];
  }

  /** After the `/` at `j`, a segment followed by `/issues/` and a digit is the shortest
      repository group. */
  lemma RepoGroupIs(s: string, j: nat, repo: string)
    requires Segment(repo) && j + |repo| + 10 <= |s|
    requires s[j + 1..j + 1 + |repo|] == repo
    requires IssuesAt(s, j + 1 + |repo|) && IsDigit(s[j + 9 + |repo|])
    ensures FirstRepoEnd(s, j, j + 2) == Some(j + 1 + |repo|)
  {
    var k := j + 1 + |repo|;
    assert RepoEndAt(s, j, k);
    forall k' | j + 2 <= k' < k ensures !RepoEndAt(s, j, k') {
      assert s[k'] == repo[k' - j - 1];
    }
  }

  /** For a match at `i`, a segment followed by `/` and a repository group is the shortest
      owner group. */
  lemma OwnerGroupIs(s: string, i: nat, owner: string)
    requires Segment(owner) && i + 11 + |owner| < |s|
    requires s[i + 11..i + 11 + |owner|] == owner && s[i + 11 + |owner|] == '/'
    requires FirstRepoEnd(s, i + 11 + |owner|, i + 13 + |owner|).Some?
    ensures FirstOwnerEnd(s, i, i + 12) == Some(i + 11 + |owner|)
  {
    var j := i + 11 + |owner|;
    assert OwnerEndAt(s, i, j);
    forall j' | i + 12 <= j' < j ensures !OwnerEndAt(s, i, j') {
      assert s[j'] == owner[j' - i - 11];
    }
  }

  /** A match with no match before it is the one `match` reports. */
  lemma LeftmostMatch(s: string, i: nat)
    requires i < |s| && MatchAt(s, i) && forall i' :: 0 <= i' < i ==> !HostAt(s, i')
    ensures FirstMatch(s, 0) == Some(i)
  {
  }

  /** Where the parts of a canonical link stand in it. */
  lemma CanonicalParts(owner: string, repo: string, digits: string, post: string)
    ensures var s := "https://github.com/" + owner + "/" + repo + "/issues/" + digits + post;
      var j := 19 + |owner|; var k := j + 1 + |repo|;
      |s| == k + 8 + |digits| + |post| &&
      (forall t :: 0 <= t < 8 ==> s[t] != 'g') && HostAt(s, 8) && s[19..j] == owner && s[j] == '/' &&
      s[j + 1..k] == repo && IssuesAt(s, k) && s[k + 8..k + 8 + |digits|] == digits &&
      s[k + 8 + |digits|..] == post
  {
    var path := repo + "/issues/" + digits + post;
    var s := "https://github.com/" + owner + "/" + repo + "/issues/" + digits + post;
    assert s == "https://github.com/" + owner + "/" + path;
    var j := 19 + |owner|;
    HostPart(owner, path);
    PathPart(repo, digits, post);
    PathInLink(s, j + 1, path, repo, digits);
  }

  /** The host and the owner of a link `https://github.com/<owner>/<path>`. */
  lemma HostPart(owner: string, path: string)
    ensures var s := "https://github.com/" + owner + "/" + path; var j := 19 + |owner|;
      |s| == j + 1 + |path| &&
      (forall t :: 0 <= t < 8 ==> s[t] != 'g') && HostAt(s, 8) && s[19..j] == owner && s[j] == '/' &&
      s[j + 1..] == path
  {
    var s := "https://github.com/" + owner + "/" + path;
    assert s[..19] == "https://github.com/";
  }

  /** The parts of the path `<repo>/issues/<digits><post>`. */
  lemma PathPart(repo: string, digits: string, post: string)
    ensures var p := repo + "/issues/" + digits + post; var k := |repo|;
      |p| == k + 8 + |digits| + |post| &&
      p[..k] == repo && IssuesAt(p, k) && p[k + 8..k + 8 + |digits|] == digits && p[k + 8 + |digits|..] == post
  {
    var p := repo + "/issues/" + digits + post;
    var k := |repo|;
    assert p[k..k + 8] == "/issues/";
  }

  /** The path's parts, found at their places in the whole link. */
  lemma PathInLink(s: string, at: nat, path: string, repo: string, digits: string)
    requires at <= |s| && s[at..] == path
    requires |path| >= |repo| + 8 + |digits| && path[..|repo|] == repo && IssuesAt(path, |repo|)
    requires path[|repo| + 8..|repo| + 8 + |digits|] == digits
    ensures var k := at + |repo|;
      s[at..k] == repo && IssuesAt(s, k) && s[k + 8..k + 8 + |digits|] == digits &&
      s[k + 8 + |digits|..] == path[|repo| + 8 + |digits|..]
  {
    var k := |repo|;
    assert forall x :: 0 <= x < |path| ==> s[at + x] == path[x];
    assert s[at..at + k] == path[..k];
    assert s[at + k + 8..at + k + 8 + |digits|] == path[k + 8..k + 8 + |digits|];
  }

  /** A text laid out as a canonical link gives back its owner, repository and number. */
  lemma MatchLaidOut(s: string, owner: string, repo: string, digits: string, j: nat, k: nat)
    requires Segment(owner) && Segment(repo) && digits != [] && AllDigits(digits)
    requires HostAt(s, 8) && forall t :: 0 <= t < 8 ==> s[t] != 'g'
    requires j == 19 + |owner| && k == j + 1 + |repo| && k + 8 + |digits| <= |s|
    requires s[19..j] == owner && s[j] == '/' && s[j + 1..k] == repo && IssuesAt(s, k)
    requires s[k + 8..k + 8 + |digits|] == digits
    requires k + 8 + |digits| == |s| || !IsDigit(s[k + 8 + |digits|])
    ensures MatchIssueUrl(s) == Some(IssueRef(owner, repo, DigitsValue(digits)))
  {
    LaidOutCaptures(s, 8, j, k, digits);
    RepoGroupIs(s, j, repo);
    OwnerGroupIs(s, 8, owner);
    LeftmostMatch(s, 8);
    MatchCaptures(s, 8, j, k);
  }

  /** A whole digit run after `/issues/` gives the number capture its value. */
  lemma LaidOutCaptures(s: string, i: nat, j: nat, k: nat, digits: string)
    requires i + 11 <= j < k && k + 8 + |digits| <= |s| && digits != [] && AllDigits(digits)
    requires s[k + 8..k + 8 + |digits|] == digits
    requires k + 8 + |digits| == |s| || !IsDigit(s[k + 8 + |digits|])
    ensures Captures(s, i, j, k) == IssueRef(s[i + 11..j], s[j + 1..k], DigitsValue(digits)) && IsDigit(s[k + 8])
  {
    NumberCapture(s, k, digits);
  }

  /** The digits after `/issues/` at `k` are a whole digit run: their value is the number. */
  lemma NumberCapture(s: string, k: nat, digits: string)
    requires k + 8 + |digits| <= |s| && digits != [] && AllDigits(digits)
    requires s[k + 8..k + 8 + |digits|] == digits
    requires k + 8 + |digits| == |s| || !IsDigit(s[k + 8 + |digits|])
    ensures DigitRunValue(s, k + 8) == DigitsValue(digits) && IsDigit(s[k + 8])
  {
    DigitRunIs(s, k + 8, digits);
  }

  /** The captures of the match that the three searches locate. */
  lemma MatchCaptures(s: string, i: nat, j: nat, k: nat)
    requires FirstMatch(s, 0) == Some(i) && FirstOwnerEnd(s, i, i + 12) == Some(j)
    requires FirstRepoEnd(s, j, j + 2) == Some(k)
    ensures MatchIssueUrl(s) == Some(Captures(s, i, j, k))
  {
  }

  /** The canonical link of an issue, followed by anything that does not start with a digit,
      gives back its owner, repository and number. */
  lemma MatchCanonicalUrl(owner: string, repo: string, n: nat, post: string)
    requires Segment(owner) && Segment(repo)
    requires post == [] || !IsDigit(post[0])
    ensures MatchIssueUrl("https://github.com/" + owner + "/" + repo + "/issues/" + NatToString(n) + post)
      == Some(IssueRef(owner, repo, n))
  {
    var digits := NatToString(n);
    var s := "https://github.com/" + owner + "/" + repo + "/issues/" + digits + post;
    var at := 28 + |owner| + |repo| + |digits|;
    CanonicalParts(owner, repo, digits, post);
    if post != [] {
      assert s[at] == s[at..][0];
    }
    MatchLaidOut(s, owner, repo, digits, 19 + |owner|, 20 + |owner| + |repo|);
  }

  // ---------------------------------------------------------------------------
  // the record mapping

  /** The create request for one record (owner and repository of the target are fixed). */
  datatype IssueData = IssueData(title: Option<string>, body: string, labels: seq<string>, assignees: seq<string>, milestone: Option<int>)

  /** What `issues.get` did for an origin issue: threw (None), or returned a body that may be
      null. */
  type FetchIssue = IssueRef -> Option<Option<string>>

  /** `body`: the origin issue's body when the link matches and the request succeeds, "" for
      no link, no match, a failed request or a null body. */
  function BodyFor(url: Option<string>, fetch: FetchIssue): (body: string)
    ensures !Truthy(url) ==> body == ""
    ensures Truthy(url) && MatchIssueUrl(url.value).None? ==> body == ""
    ensures Truthy(url) && MatchIssueUrl(url.value).Some? ==>
      (var fetched := fetch(MatchIssueUrl(url.value).value);
       body == if fetched.Some? && fetched.value.Some? then fetched.value.value else "")
  {
    if !Truthy(url) then ""
    else
      match MatchIssueUrl(url.value)
      case None => ""
      case Some(ref) =>
        match fetch(ref)
        case None => ""
        case Some(None) => ""
        case Some(Some(b)) => b
  }

  /** `assignees`: the Assignees cell split on commas, every part trimmed; none for an empty
      or missing cell. */
  function AssigneesOf(cell: Option<string>): (r: seq<string>)
    ensures !Truthy(cell) ==> r == []
    ensures Truthy(cell) ==> (|r| == |Split(cell.value, ',')| &&
      forall i :: 0 <= i < |r| ==> r[i] == Trim(Split(cell.value, ',')[i]))
  {
    if Truthy(cell) then TrimAll(Split(cell.value, ',')) else []
  }

  /** Every assignee is trimmed and holds no comma. */
  lemma AssigneesClean(cell: Option<string>, i: nat)
    requires i < |AssigneesOf(cell)|
    ensures var a := AssigneesOf(cell)[i]; Trim(a) == a && ',' !in a
  {
    var part := Split(cell.value, ',')[i];
    TrimIdempotent(part);
    TrimShape(part);
  }

  /** The request built for a record: trimmed title, fetched body, the Labels cell as ONE
      label, the split assignees and the milestone number when its title is known. */
  function IssueDataOf(record: Row, milestoneMap: map<string, int>, fetch: FetchIssue): (r: IssueData)
    ensures r.title == TrimCell(Get(record, "Title"))
    ensures r.body == BodyFor(TrimCell(Get(record, "URL")), fetch)
    ensures r.labels == if Truthy(Get(record, "Labels")) then [Get(record, "Labels").value] else []
    ensures r.assignees == AssigneesOf(Get(record, "Assignees"))
    ensures var t := TrimCell(Get(record, "Milestone"));
      (r.milestone.Some? <==> Truthy(t) && t.value in milestoneMap) &&
      (r.milestone.Some? ==> r.milestone.value == milestoneMap[t.value])
  {
    var labels := Get(record, "Labels");
    var milestoneTitle := TrimCell(Get(record, "Milestone"));
    IssueData(
      TrimCell(Get(record, "Title")),
      BodyFor(TrimCell(Get(record, "URL")), fetch),
      if Truthy(labels) then [labels.value] else [],
      AssigneesOf(Get(record, "Assignees")),
      if Truthy(milestoneTitle) && milestoneTitle.value in milestoneMap then Some(milestoneMap[milestoneTitle.value]) else None)
  }

  /** What the request means: the title is trimmed; a body is sent only when the trimmed URL
      names an origin issue and fetching it returned exactly that body; the Labels cell, kept
      whole, is the one label or there is none. */
  lemma RequestMeaning(record: Row, milestoneMap: map<string, int>, fetch: FetchIssue)
    ensures var r := IssueDataOf(record, milestoneMap, fetch);
      (r.title.Some? ==> Trim(r.title.value) == r.title.value) &&
      (r.body != "" ==>
        var url := TrimCell(Get(record, "URL"));
        Truthy(url) && MatchIssueUrl(url.value).Some? &&
        fetch(MatchIssueUrl(url.value).value) == Some(Some(r.body))) &&
      |r.labels| <= 1 && (|r.labels| == 1 <==> Truthy(Get(record, "Labels"))) &&
      (|r.labels| == 1 ==> r.labels[0] == Get(record, "Labels").value)
  {
    var title := Get(record, "Title");
    if title.Some? {
      TrimIdempotent(title.value);
    }
  }

  /** The milestone of a request built with a map of created milestones: a number is sent
      exactly when some origin milestone titled like the trimmed cell was created, and it is
      the number one such milestone received. */
  lemma RequestMilestone(record: Row, ms: seq<OriginMilestone>, created: seq<Option<int>>,
                         milestoneMap: map<string, int>, fetch: FetchIssue)
    requires MapsCreated(ms, created, milestoneMap)
    ensures var r := IssueDataOf(record, milestoneMap, fetch);
      var t := TrimCell(Get(record, "Milestone"));
      (r.milestone.Some? <==>
        Truthy(t) && exists i :: 0 <= i < |ms| && created[i].Some? && ms[i].title == t.value) &&
      (r.milestone.Some? ==>
        exists i :: 0 <= i < |ms| && created[i] == r.milestone && ms[i].title == t.value)
  {
  }

  /** A Labels cell with commas is still a single label, not split like Assignees. */
  lemma LabelsNotSplit(record: Row, milestoneMap: map<string, int>, fetch: FetchIssue)
    requires Get(record, "Labels") == Some("bug,help wanted")
    ensures IssueDataOf(record, milestoneMap, fetch).labels == ["bug,help wanted"]
  {
  }

  // ---------------------------------------------------------------------------
  // the retry loop

  /** What one `issues.create` call did. */
  datatype CreateOutcome = Created | Failed(status: int, message: string)

  /** The one failure that is retried: status 403 with "secondary rate limit" in the message. */
  predicate SecondaryRateLimit(o: CreateOutcome) {
    o.Failed? && o.status == 403 && Contains(o.message, "secondary rate limit")
  }

  /** The script ends the loop: some call succeeds or fails for another reason. The source
      retries forever on a script that never does. */
  predicate EndsWithin(script: seq<CreateOutcome>) {
    exists k :: 0 <= k < |script| && !SecondaryRateLimit(script[k])
  }

  /** Index of the call that ends the loop: the first that is not a secondary rate limit. */
  function StopAt(script: seq<CreateOutcome>): (k: nat)
    requires EndsWithin(script)
    ensures k < |script| && !SecondaryRateLimit(script[k])
    ensures forall j :: 0 <= j < k ==> SecondaryRateLimit(script[j])
  {
    if !SecondaryRateLimit(script[0]) then 0
    else
      assert EndsWithin(script[1..]) by {
        var k :| 0 <= k < |script| && !SecondaryRateLimit(script[k]);
        assert script[1..][k - 1] == script[k];
      }
      StopAt(script[1..]) + 1
  }

  /** The k-th wait, counted from 1: `retryDelay` starts at 60 s and grows by 60 s. */
  function Backoff(k: nat): nat {
    60000 * k
  }

  /** The waits before the calls after the first `n` rate-limited ones. */
  function Backoffs(n: nat): (waits: seq<nat>)
    ensures |waits| == n && forall j :: 0 <= j < n ==> waits[j] == Backoff(j + 1)
  {
    seq(n, j requires 0 <= j < n => Backoff(j + 1))
  }

  /** The `while (true)` loop: the same request is sent until a call succeeds or fails with
      anything but a secondary rate limit, waiting 60 s, 120 s, 180 s, ... before each retry.
      Returns the requests sent, the waits and whether the issue was created. */
  method CreateWithRetry(data: IssueData, script: seq<CreateOutcome>)
    returns (requests: seq<IssueData>, waits: seq<nat>, created: bool)
    requires EndsWithin(script)
    ensures |requests| == StopAt(script) + 1 && forall j :: 0 <= j < |requests| ==> requests[j] == data
    ensures waits == Backoffs(StopAt(script))
    ensures created <==> script[StopAt(script)] == Created
  {
    var retryDelay := 60000;
    var attempt := 1;
    requests := [];
    waits := [];
    while true
      invariant attempt == |waits| + 1 && |requests| == |waits| <= StopAt(script)
      invariant retryDelay == Backoff(attempt)
      invariant forall j :: 0 <= j < |requests| ==> requests[j] == data
      invariant waits == Backoffs(|waits|)
      decreases StopAt(script) - |waits|
    {
      var outcome := script[attempt - 1];
      requests := requests + [data];
      if outcome == Created {
        created := true;
        break;
      }
      if outcome.status == 403 && Contains(outcome.message, "secondary rate limit") {
        waits := waits + [retryDelay];
        retryDelay := retryDelay + 60000;
        attempt := attempt + 1;
      } else {
        created := false;
        break;
      }
    }
  }

  /** The wait schedule is linear: each wait is 60 s longer than the one before, and the
      waits of `n` retries add up to 30 s * n * (n + 1). */
  lemma BackoffsTotal(n: nat)
    ensures forall j :: 0 < j < n ==> Backoffs(n)[j] == Backoffs(n)[j - 1] + 60000
    ensures Sum(Backoffs(n)) == 30000 * n * (n + 1)
  {
    BackoffsSum(n);
  }

  lemma {:induction false} BackoffsSum(n: nat)
    ensures Sum(Backoffs(n)) == 30000 * n * (n + 1)
  {
    if n > 0 {
      BackoffsSum(n - 1);
      assert Backoffs(n)[..n - 1] == Backoffs(n - 1);
      assert Sum(Backoffs(n)) == Sum(Backoffs(n - 1)) + 60000 * n;
      TriangleStep(n - 1);
    }
  }

  lemma TriangleStep(p: nat)
    ensures 30000 * p * (p + 1) + 60000 * (p + 1) == 30000 * (p + 1) * (p + 2)
  {
    assert p * (p + 1) + 2 * (p + 1) == (p + 1) * (p + 2);
  }

  function Sum(s: seq<nat>): nat {
    if s == [] then 0 else Sum(s[..|s| - 1]) + s[|s| - 1]
  }

  /** A secondary rate limit followed by success: one wait of 60 s, two requests, created. */
  lemma RetryOnceThenCreated()
    ensures var script := [Failed(403, "You have exceeded a secondary rate limit"), Created];
      EndsWithin(script) && StopAt(script) == 1 && Backoffs(StopAt(script)) == [60000] &&
      script[StopAt(script)] == Created
  {
    var script := [Failed(403, "You have exceeded a secondary rate limit"), Created];
    RateLimitMessage();
    assert SecondaryRateLimit(script[0]) && !SecondaryRateLimit(script[1]);
    assert script[1..] == [Created];
    assert Backoffs(1)[0] == 60000;
  }

  /** GitHub's secondary rate limit message is recognised. */
  lemma RateLimitMessage()
    ensures SecondaryRateLimit(Failed(403, "You have exceeded a secondary rate limit"))
  {
    var m := "You have exceeded a secondary rate limit";
    assert OccursAt(m, "secondary rate limit", 20);
  }

  /** Any other failure ends the loop at once: one request, no wait, not created. */
  lemma OtherFailureNotRetried(status: int, message: string)
    requires status != 403
    ensures var script := [Failed(status, message)];
      EndsWithin(script) && StopAt(script) == 0 && Backoffs(StopAt(script)) == [] &&
      script[StopAt(script)] != Created
  {
    assert !SecondaryRateLimit([Failed(status, message)][0]);
  }

  // ---------------------------------------------------------------------------
  // copyIssuesFromTSV

  /** What became of one record: the request, how many times it was sent, the waits before
      the retries and whether the issue was created. */
  datatype RecordCopy = RecordCopy(data: IssueData, requests: nat, waits: seq<nat>, created: bool)

  /** The copy of one record, the retry loop driven by that record's script. */
  function CopyOf(record: Row, milestoneMap: map<string, int>, fetch: FetchIssue, script: seq<CreateOutcome>): (c: RecordCopy)
    requires EndsWithin(script)
    ensures c.data == IssueDataOf(record, milestoneMap, fetch)
    ensures c.requests == |c.waits| + 1 && c.waits == Backoffs(StopAt(script))
    ensures c.created <==> script[StopAt(script)] == Created
  {
    RecordCopy(IssueDataOf(record, milestoneMap, fetch), StopAt(script) + 1, Backoffs(StopAt(script)),
              script[StopAt(script)] == Created)
  }

  /** What the copy of a record means: the issue is created exactly when the first call that
      is not a secondary rate limit succeeds; every request before the last one hit that
      limit; and the waits add up to 30 s * r * (r + 1) for r retries. */
  lemma CopyMeaning(record: Row, milestoneMap: map<string, int>, fetch: FetchIssue, script: seq<CreateOutcome>)
    requires EndsWithin(script)
    ensures var c := CopyOf(record, milestoneMap, fetch, script);
      (c.created <==> exists k :: 0 <= k < |script| && script[k] == Created &&
                        forall j :: 0 <= j < k ==> SecondaryRateLimit(script[j])) &&
      c.requests <= |script| &&
      (forall j :: 0 <= j < c.requests - 1 ==> SecondaryRateLimit(script[j])) &&
      Sum(c.waits) == 30000 * (c.requests - 1) * c.requests
  {
    var stop := StopAt(script);
    if exists k :: 0 <= k < |script| && script[k] == Created && forall j :: 0 <= j < k ==> SecondaryRateLimit(script[j]) {
      var k :| 0 <= k < |script| && script[k] == Created && forall j :: 0 <= j < k ==> SecondaryRateLimit(script[j]);
      assert !SecondaryRateLimit(script[k]);
      assert k == stop;
    }
    BackoffsSum(stop);
  }

  /** One pass of the loop over the records: the request is built by assignment, then sent
      with retries. */
  method CopyIssue(record: Row, milestoneMap: map<string, int>, fetch: FetchIssue, script: seq<CreateOutcome>)
    returns (copy: RecordCopy, requests: seq<IssueData>)
    requires EndsWithin(script)
    ensures copy == CopyOf(record, milestoneMap, fetch, script)
    ensures |requests| == copy.requests && forall j :: 0 <= j < |requests| ==> requests[j] == copy.data
  {
    var title := TrimCell(Get(record, "Title"));
    var url := TrimCell(Get(record, "URL"));
    var labels: seq<string> := [];
    if Truthy(Get(record, "Labels")) {
      labels := [Get(record, "Labels").value];
    }
    var milestoneTitle := TrimCell(Get(record, "Milestone"));
    var assignees: seq<string> := [];
    if Truthy(Get(record, "Assignees")) {
      assignees := TrimAll(Split(Get(record, "Assignees").value, ','));
    }
    var body := "";
    if Truthy(url) {
      var found := MatchIssueUrl(url.value);
      if found.Some? {
        var fetched := fetch(found.value);
        if fetched.Some? && fetched.value.Some? {
          body := fetched.value.value;
        }
      }
    }
    var data := IssueData(title, body, labels, assignees, None);
    if Truthy(milestoneTitle) && milestoneTitle.value in milestoneMap {
      data := data.(milestone := Some(milestoneMap[milestoneTitle.value]));
    }
    var waits, created;
    requests, waits, created := CreateWithRetry(data, script);
    copy := RecordCopy(data, |requests|, waits, created);
  }

  /** `copyIssuesFromTSV(milestoneMap)` over the parsed records: every record is copied in
      file order, whatever became of the ones before it. */
  method CopyIssuesFromTsv(records: seq<Row>, milestoneMap: map<string, int>, fetch: FetchIssue,
                           scripts: seq<seq<CreateOutcome>>)
    returns (copies: seq<RecordCopy>)
    requires |scripts| == |records| && forall i :: 0 <= i < |scripts| ==> EndsWithin(scripts[i])
    ensures |copies| == |records|
    ensures forall i :: 0 <= i < |records| ==> copies[i] == CopyOf(records[i], milestoneMap, fetch, scripts[i])
  {
    ghost var copyOf := (j: nat) requires j < |records| && EndsWithin(scripts[j]) =>
      CopyOf(records[j], milestoneMap, fetch, scripts[j]);
    copies := [];
    for i := 0 to |records|
      invariant copies == Tabulate(copyOf, i)
    {
      var copy, _ := CopyIssue(records[i], milestoneMap, fetch, scripts[i]);
      assert copy == copyOf(i);
      copies := copies + [copy];
    }
  }
}
