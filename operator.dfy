/** `src/tieba_operator.py`: one account's view of the forum site. The
    network is a fixed function from request to page (`web`), and
    `html.unescape` is a parameter (`unescape`); the operator records the
    requests it issues, in order, so that the contracts can say what was
    fetched and how often. */
module Operator {
  import opened Common
  import opened Patterns
  import opened UrlQuote

  /** A request: a desktop page (decoded as GBK) or a mobile page (decoded as UTF-8). */
  datatype Request = Desktop(url: string) | Phone(url: string)

  /** The outcome of signing one forum. */
  datatype SignResult = Failed | AlreadySigned | Success

  /** The enum's value, the text written to the log. */
  function SignResultValue(r: SignResult): (v: string)
    ensures |v| == 4
  {
    match r
    case Failed => "签到失败"
    case AlreadySigned => "已经签过"
    case Success => "签到成功"
  }

  /** Each result is logged with its own text. */
  lemma SignResultValueInjective(a: SignResult, b: SignResult)
    requires SignResultValue(a) == SignResultValue(b)
    ensures a == b
  {
  }

  const SITE := "http://tieba.baidu.com"
  const FAVORITES_URL := SITE + "/f/like/mylike?pn="
  const MOBILE_HOME := SITE + "/mo/"
  const NEXT_PAGE := "下一页"

  /** The characters cut from the end of the favourites link to leave the prefix. */
  const PREFIX_TRIM := 21

  // ---------------------------------------------------------------------
  // The favourites pages.

  function FavoritesPageUrl(n: nat): string {
    FAVORITES_URL + NatToString(n)
  }

  /** The page carries a link to the next one. */
  predicate HasNextPage(content: string) {
    Find(content, NEXT_PAGE) >= 0
  }

  function FavoritesPage(web: Request -> string, n: nat): string {
    web(Desktop(FavoritesPageUrl(n)))
  }

  /** Pages `1..n-1` all carry the next-page marker. */
  predicate MarkedBefore(web: Request -> string, n: nat) {
    forall k :: 1 <= k < n ==> HasNextPage(FavoritesPage(web, k))
  }

  /** One more page: its names and its request come after the earlier ones. */
  lemma PageStep(web: Request -> string, n: nat)
    requires n >= 1
    ensures NamesUpTo(web, n) == NamesUpTo(web, n - 1) + FindTitles(FavoritesPage(web, n))
    ensures PageRequests(n) == PageRequests(n - 1) + [Desktop(FavoritesPageUrl(n))]
  {
  }

  lemma MarkedNext(web: Request -> string, n: nat)
    requires MarkedBefore(web, n) && HasNextPage(FavoritesPage(web, n))
    ensures MarkedBefore(web, n + 1)
  {
  }

  /** Page `last` is the first page without a next-page marker. */
  predicate LastPage(web: Request -> string, last: nat) {
    && last >= 1
    && !HasNextPage(FavoritesPage(web, last))
    && MarkedBefore(web, last)
  }

  /** The listing ends: some page has no next-page marker. */
  ghost predicate ListEnds(web: Request -> string) {
    exists n: nat :: n >= 1 && !HasNextPage(FavoritesPage(web, n))
  }

  lemma LastPageUnique(web: Request -> string, a: nat, b: nat)
    requires LastPage(web, a) && LastPage(web, b)
    ensures a == b
  {
  }

  /** The names extracted from pages `1..n`, in page order. */
  function NamesUpTo(web: Request -> string, n: nat): seq<string> {
    if n == 0 then [] else NamesUpTo(web, n - 1) + FindTitles(FavoritesPage(web, n))
  }

  /** The requests for pages `1..n`. */
  function PageRequests(n: nat): seq<Request> {
    if n == 0 then [] else PageRequests(n - 1) + [Desktop(FavoritesPageUrl(n))]
  }

  /** The pages are requested consecutively: the `i`-th request is for page `i + 1`. */
  lemma {:induction false} PageRequestsConsecutive(n: nat)
    ensures |PageRequests(n)| == n
    ensures forall i :: 0 <= i < n ==> PageRequests(n)[i] == Desktop(FavoritesPageUrl(i + 1))
  {
    if n > 0 {
      PageRequestsConsecutive(n - 1);
    }
  }

  /** The row `title="n">n</a></td>` is on one of the pages `1..n`. */
  predicate OnSomePage(web: Request -> string, n: nat, name: string) {
    exists k: nat :: 1 <= k <= n && Occurs(FavoritesPage(web, k), TitleRow(name))
  }

  /** Every listed name has its row on one of the fetched pages. */
  lemma {:induction false} NamesUpToOccur(web: Request -> string, n: nat)
    ensures forall j :: 0 <= j < |NamesUpTo(web, n)| ==> OnSomePage(web, n, NamesUpTo(web, n)[j])
  {
    if n > 0 {
      NamesUpToOccur(web, n - 1);
      var prev := NamesUpTo(web, n - 1);
      var here := FindTitles(FavoritesPage(web, n));
      FindTitlesOccur(FavoritesPage(web, n));
      var all := NamesUpTo(web, n);
      assert all == prev + here;
      forall j | 0 <= j < |all| ensures OnSomePage(web, n, all[j]) {
        if j < |prev| {
          assert all[j] == prev[j];
          assert OnSomePage(web, n - 1, prev[j]);
          var k: nat :| 1 <= k <= n - 1 && Occurs(FavoritesPage(web, k), TitleRow(prev[j]));
          assert 1 <= k <= n;
        } else {
          assert all[j] == here[j - |prev|];
          assert Occurs(FavoritesPage(web, n), TitleRow(all[j]));
        }
      }
    }
  }

  /** Every listed name is non-empty and has no newline. */
  lemma {:induction false} NamesUpToPlain(web: Request -> string, n: nat)
    ensures forall j :: 0 <= j < |NamesUpTo(web, n)| ==> NamesUpTo(web, n)[j] != "" && '\n' !in NamesUpTo(web, n)[j]
  {
    if n > 0 {
      NamesUpToPlain(web, n - 1);
      var prev := NamesUpTo(web, n - 1);
      var here := FindTitles(FavoritesPage(web, n));
      assert NamesUpTo(web, n) == prev + here;
    }
  }

  function Concat(groups: seq<seq<string>>): seq<string> {
    if groups == [] then [] else Concat(groups[..|groups| - 1]) + groups[|groups| - 1]
  }

  /** The page `k` of a listing split into `groups`: its rows, then the
      next-page marker on every page but the last. */
  function ListingPage(groups: seq<seq<string>>, k: nat): string
    requires 1 <= k <= |groups|
  {
    Rows(groups[k - 1], if k < |groups| then NEXT_PAGE else "")
  }

  predicate Listable(groups: seq<seq<string>>) {
    forall i, j :: 0 <= i < |groups| && 0 <= j < |groups[i]| ==> PlainName(groups[i][j]) && '下' !in groups[i][j]
  }

  /** Reading a listing back: when the site serves `groups` as pages
      `1..|groups|`, the last of them is the last page and the names read
      are all the groups, in order. */
  lemma ListingReadBack(web: Request -> string, groups: seq<seq<string>>)
    requires |groups| >= 1 && Listable(groups)
    requires forall k :: 1 <= k <= |groups| ==> FavoritesPage(web, k) == ListingPage(groups, k)
    ensures LastPage(web, |groups|)
    ensures NamesUpTo(web, |groups|) == Concat(groups)
  {
    ListingPagesRead(web, groups);
    ListingPagesMarked(web, groups);
    ListingNames(web, groups, |groups|);
  }

  lemma ListingPagesRead(web: Request -> string, groups: seq<seq<string>>)
    requires Listable(groups)
    requires forall k :: 1 <= k <= |groups| ==> FavoritesPage(web, k) == ListingPage(groups, k)
    ensures forall k :: 1 <= k <= |groups| ==> FindTitles(FavoritesPage(web, k)) == groups[k - 1]
  {
    forall k | 1 <= k <= |groups| ensures FindTitles(FavoritesPage(web, k)) == groups[k - 1] {
      ListingPageFacts(groups, k);
    }
  }

  lemma ListingPagesMarked(web: Request -> string, groups: seq<seq<string>>)
    requires |groups| >= 1 && Listable(groups)
    requires forall k :: 1 <= k <= |groups| ==> FavoritesPage(web, k) == ListingPage(groups, k)
    ensures LastPage(web, |groups|)
  {
    forall k | 1 <= k < |groups| ensures HasNextPage(FavoritesPage(web, k)) {
      ListingPageFacts(groups, k);
    }
    ListingPageFacts(groups, |groups|);
  }

  lemma ListingPageFacts(groups: seq<seq<string>>, k: nat)
    requires 1 <= k <= |groups| && Listable(groups)
    ensures FindTitles(ListingPage(groups, k)) == groups[k - 1]
    ensures HasNextPage(ListingPage(groups, k)) <==> k < |groups|
  {
    var g := groups[k - 1];
    assert forall j :: 0 <= j < |g| ==> PlainName(g[j]) && '下' !in g[j];
    if k < |groups| {
      ListedPage(g);
    } else {
      LastListedPage(g);
    }
  }

  /** A page with the next-page marker after its rows. */
  lemma ListedPage(g: seq<string>)
    requires forall j :: 0 <= j < |g| ==> PlainName(g[j])
    ensures FindTitles(Rows(g, NEXT_PAGE)) == g
    ensures HasNextPage(Rows(g, NEXT_PAGE))
  {
    FindTitlesRowsThen(g, NEXT_PAGE);
    assert FindTitles(NEXT_PAGE) == [] by {
      assert NEXT_PAGE[1..][1..][1..] == [];
    }
    AppendEmpty(g);
    RowsEndWith(g, NEXT_PAGE);
  }

  lemma {:induction false} RowsEndWith(g: seq<string>, tail: string)
    ensures |tail| <= |Rows(g, tail)| && StartsAt(Rows(g, tail), |Rows(g, tail)| - |tail|, tail)
    decreases |g|
  {
    if g != [] {
      RowsEndWith(g[1..], tail);
      var rest := Rows(g[1..], tail);
      var s := TitleRow(g[0]) + rest;
      assert s[|s| - |tail|..] == rest[|rest| - |tail|..];
    } else {
      assert tail[0..|tail|] == tail;
    }
  }

  /** The last page: rows only, and no name holds the marker's first character. */
  lemma LastListedPage(g: seq<string>)
    requires forall j :: 0 <= j < |g| ==> PlainName(g[j]) && '下' !in g[j]
    ensures FindTitles(Rows(g, "")) == g
    ensures !HasNextPage(Rows(g, ""))
  {
    LastListedNames(g);
    LastListedUnmarked(g);
  }

  lemma LastListedNames(g: seq<string>)
    requires forall j :: 0 <= j < |g| ==> PlainName(g[j])
    ensures FindTitles(Rows(g, "")) == g
  {
    FindTitlesRowsThen(g, "");
    AppendEmpty(g);
  }

  lemma LastListedUnmarked(g: seq<string>)
    requires forall j :: 0 <= j < |g| ==> '下' !in g[j]
    ensures !HasNextPage(Rows(g, ""))
  {
    MarkupWithout('下');
    RowsWithout(g, "", '下');
    WithoutMarker(Rows(g, ""));
  }

  lemma AppendEmpty<T>(xs: seq<T>)
    ensures xs + [] == xs
  {
  }

  /** A page without the marker's first character has no next-page marker. */
  lemma WithoutMarker(content: string)
    requires '下' !in content
    ensures !HasNextPage(content)
  {
    forall j: nat ensures !StartsAt(content, j, NEXT_PAGE) {
      if j + |NEXT_PAGE| <= |content| {
        assert content[j..j + |NEXT_PAGE|][0] == content[j] != NEXT_PAGE[0];
      }
    }
  }

  lemma {:induction false} ListingNames(web: Request -> string, groups: seq<seq<string>>, n: nat)
    requires n <= |groups|
    requires forall k :: 1 <= k <= |groups| ==> FindTitles(FavoritesPage(web, k)) == groups[k - 1]
    ensures NamesUpTo(web, n) == Concat(groups[..n])
    ensures n == |groups| ==> NamesUpTo(web, n) == Concat(groups)
  {
    if n > 0 {
      ListingNames(web, groups, n - 1);
      assert groups[..n][..n - 1] == groups[..n - 1];
    } else {
      assert groups[..0] == [];
    }
    if n == |groups| {
      assert groups[..n] == groups;
    }
  }

  // ---------------------------------------------------------------------
  // The sign URLs.

  /** `fetch_sign_url_prefix` on the mobile home page `home`: the favourites
      link, unescaped, behind the site address, with its last 21 characters
      cut; `AttributeError` when the page has no such link. */
  function SignUrlPrefixOf(home: string, unescape: string -> string): (r: Result<string, PyError>)
    ensures r.Err? <==> SearchFavorite(home).None?
    ensures r.Err? ==> r.error == AttributeError
  {
    match SearchFavorite(home)
    case None => Err(AttributeError)
    case Some(p) => Ok(DropLast(SITE + unescape(FavoriteGroup(home[p..])), PREFIX_TRIM))
  }

  /** The prefix is the unescaped link behind the site address, minus its
      last 21 characters: a link ending in any 21 characters `x` gives the
      site address and the rest of the link. */
  lemma SignUrlPrefixPlaced(before: string, link: string, rest: string, unescape: string -> string,
                            kept: string, x: string)
    requires '"' !in before && '"' !in link
    requires |link| > |FAVORITE_TAIL| && link[|link| - |FAVORITE_TAIL|..] == FAVORITE_TAIL
    requires unescape(link) == kept + x && |x| == PREFIX_TRIM
    ensures SignUrlPrefixOf(before + "\"" + link + "\"" + rest, unescape) == Ok(SITE + kept)
  {
    SearchFavoritePlaced(before, link, rest);
    AppendAssoc(SITE, kept, x);
    DropLastSuffix(SITE + kept, x, PREFIX_TRIM);
  }

  lemma AppendAssoc<T>(a: seq<T>, b: seq<T>, c: seq<T>)
    ensures a + (b + c) == a + b + c
  {
  }

  lemma DropLastSuffix(a: string, x: string, k: nat)
    requires k >= 1 && |x| == k
    ensures DropLast(a + x, k) == a
  {
    assert (a + x)[..|a|] == a;
  }

  /** `prefix + 'kw=' + quote(name)`. */
  function EntryUrl(prefix: string, name: string): string {
    prefix + "kw=" + Quote(name)
  }

  /** Different names give different entry URLs, and the name is the
      percent-decoded text after `kw=`. */
  lemma EntryUrlNames(prefix: string, a: string, b: string)
    ensures EntryUrl(prefix, a) == EntryUrl(prefix, b) ==> a == b
    ensures Unquote(EntryUrl(prefix, a)[|prefix| + 3..]) == Some(a)
  {
    var ua := EntryUrl(prefix, a);
    assert ua[|prefix| + 3..] == Quote(a);
    UnquoteQuote(a);
    if ua == EntryUrl(prefix, b) {
      assert EntryUrl(prefix, b)[|prefix| + 3..] == Quote(b);
      QuoteInjective(a, b);
    }
  }

  /** `get_tieba_sign_url` once the forum page is in hand: the unescaped
      sign link behind the site address with its `">签到` cut, or
      `TiebaAlreadySigned` when the page has no sign link. */
  function SignUrlOf(page: string, unescape: string -> string): (r: Result<string, PyError>)
    ensures r.Err? <==> SearchSign(page).None?
    ensures r.Err? ==> r.error == TiebaAlreadySigned
    ensures r.Ok? ==> |r.value| >= |SITE| + 1 && r.value[..|SITE| + 1] == SITE + "/"
  {
    match SearchSign(page)
    case None => Err(TiebaAlreadySigned)
    case Some(m) =>
      var u := SITE + "/" + DropLast(unescape(SignMatchText(page, m.0, m.1)), |SIGN_TAIL|);
      assert u[..|SITE| + 1] == SITE + "/";
      Ok(u)
  }

  /** A sign link placed after text without `mo/` gives the site address
      followed by the unescaped match with its last four characters cut, for
      any unescaping `kept + x` of the match with `|x|` four. */
  lemma SignUrlPlaced(before: string, path: string, rest: string, unescape: string -> string,
                      kept: string, x: string)
    requires forall j :: !StartsAt(before, j, SIGN_HEAD)
    requires path != "" && '"' !in path && '\n' !in path
    requires unescape(SIGN_HEAD + path + SIGN_TAIL) == kept + x && |x| == |SIGN_TAIL|
    ensures SignUrlOf(before + SIGN_HEAD + path + SIGN_TAIL + rest, unescape) == Ok(SITE + "/" + kept)
  {
    SearchSignPlaced(before, path, rest);
    DropLastSuffix(kept, x, |SIGN_TAIL|);
  }

  /** What `sign_tieba` makes of the outcome of `get_tieba_sign_url`:
      `TiebaAlreadySigned` is caught and becomes `already_signed`, a found
      link means `success`, and any other error escapes. */
  function OutcomeOf(signUrl: Result<string, PyError>): Result<SignResult, PyError> {
    match signUrl
    case Ok(_) => Ok(Success)
    case Err(TiebaAlreadySigned) => Ok(AlreadySigned)
    case Err(e) => Err(e)
  }

  /** The request for the sign link itself, when there is one. */
  function SignLinkRequests(signUrl: Result<string, PyError>): seq<Request> {
    if signUrl.Ok? then [Phone(signUrl.value)] else []
  }

  /** The requests `prepare_sign` issues given the cached prefix. */
  function PrefixRequests(cached: Option<string>): seq<Request> {
    if cached.None? then [Phone(MOBILE_HOME)] else []
  }

  class TiebaOperator {
    /** The page the site returns for each request, with this account's cookies. */
    const web: Request -> string
    /** `html.unescape`. */
    const unescape: string -> string
    /** `self.sign_url_prefix`. */
    var signUrlPrefix: Option<string>
    /** Every request issued so far, oldest first. */
    var requests: seq<Request>

    /** The prefix the mobile home page yields. */
    function HomePrefix(): Result<string, PyError> {
      SignUrlPrefixOf(web(Phone(MOBILE_HOME)), unescape)
    }

    /** A cached prefix is the one the mobile home page yields. */
    ghost predicate Valid()
      reads this
    {
      signUrlPrefix.Some? ==> HomePrefix() == Ok(signUrlPrefix.value)
    }

    /** `get_tieba_sign_url(name)` as a value. */
    function SignUrlFor(name: string): (r: Result<string, PyError>)
      ensures r.Err? ==> r.error == AttributeError || r.error == TiebaAlreadySigned
    {
      match HomePrefix()
      case Err(e) => Err(e)
      case Ok(prefix) => SignUrlOf(web(Phone(EntryUrl(prefix, name))), unescape)
    }

    /** `sign_tieba(name)` as a value. */
    function SignOutcome(name: string): Result<SignResult, PyError> {
      OutcomeOf(SignUrlFor(name))
    }

    /** The requests `get_tieba_sign_url(name)` issues after the prefix step. */
    function EntryRequests(name: string): seq<Request> {
      match HomePrefix()
      case Err(_) => []
      case Ok(prefix) => [Phone(EntryUrl(prefix, name))]
    }

    /** The requests `sign_tieba(name)` issues after the prefix step. */
    function SignRequests(name: string): seq<Request> {
      EntryRequests(name) + SignLinkRequests(SignUrlFor(name))
    }

    constructor (web: Request -> string, unescape: string -> string)
      ensures this.web == web && this.unescape == unescape
      ensures signUrlPrefix == None && requests == []
      ensures Valid()
    {
      this.web := web;
      this.unescape := unescape;
      signUrlPrefix := None;
      requests := [];
    }

    /** One request through the account's session. */
    method Fetch(r: Request) returns (content: string)
      modifies this
      ensures content == web(r)
      ensures requests == old(requests) + [r] && signUrlPrefix == old(signUrlPrefix)
    {
      requests := requests + [r];
      content := web(r);
    }

    /** `fetch_favorite_tieba_list`: pages 1, 2, ... until the first page
        without the next-page marker, collecting the names of every page
        requested, the last one included. */
    method FetchFavoriteTiebaList() returns (result: seq<string>)
      requires ListEnds(web)
      modifies this
      ensures exists last ::
        && LastPage(web, last)
        && result == NamesUpTo(web, last)
        && requests == old(requests) + PageRequests(last)
      ensures signUrlPrefix == old(signUrlPrefix)
    {
      ghost var bound: nat :| bound >= 1 && !HasNextPage(FavoritesPage(web, bound));
      var pageNum: nat := 1;
      result := [];
      while true
        invariant 1 <= pageNum <= bound
        invariant MarkedBefore(web, pageNum)
        invariant result == NamesUpTo(web, pageNum - 1)
        invariant requests == old(requests) + PageRequests(pageNum - 1)
        invariant signUrlPrefix == old(signUrlPrefix)
        decreases bound - pageNum
      {
        var url := FavoritesPageUrl(pageNum);
        var content := Fetch(Desktop(url));
        PageStep(web, pageNum);
        AppendAssoc(old(requests), PageRequests(pageNum - 1), [Desktop(url)]);
        var nameList := FindTitles(content);
        result := result + nameList;
        assert result == NamesUpTo(web, pageNum) && requests == old(requests) + PageRequests(pageNum);
        if !HasNextPage(content) {
          assert LastPage(web, pageNum);
          return;
        }
        assert pageNum != bound;
        MarkedNext(web, pageNum);
        pageNum := pageNum + 1;
      }
    }

    /** `fetch_sign_url_prefix`. */
    method FetchSignUrlPrefix() returns (r: Result<string, PyError>)
      modifies this
      ensures r == HomePrefix()
      ensures requests == old(requests) + [Phone(MOBILE_HOME)] && signUrlPrefix == old(signUrlPrefix)
    {
      var content := Fetch(Phone(MOBILE_HOME));
      match SearchFavorite(content)
      case None =>
        r := Err(AttributeError);
      case Some(p) =>
        var link := FavoriteGroup(content[p..]);
        r := Ok(DropLast(SITE + unescape(link), PREFIX_TRIM));
    }

    /** `prepare_sign`: fetch the prefix only while none is cached. */
    method PrepareSign() returns (r: Outcome<PyError>)
      requires Valid()
      modifies this
      ensures Valid()
      ensures requests == old(requests) + PrefixRequests(old(signUrlPrefix))
      ensures signUrlPrefix == (if HomePrefix().Ok? then Some(HomePrefix().value) else None)
      ensures r == (if HomePrefix().Ok? then Pass else Fail(HomePrefix().error))
    {
      if signUrlPrefix.None? {
        var fetched := FetchSignUrlPrefix();
        match fetched
        case Ok(prefix) =>
          signUrlPrefix := Some(prefix);
          r := Pass;
        case Err(e) =>
          r := Fail(e);
      } else {
        r := Pass;
      }
    }

    /** `get_tieba_sign_url(name)`. */
    method GetTiebaSignUrl(name: string) returns (r: Result<string, PyError>)
      requires Valid()
      modifies this
      ensures Valid()
      ensures r == SignUrlFor(name)
      ensures requests == old(requests) + PrefixRequests(old(signUrlPrefix)) + EntryRequests(name)
      ensures signUrlPrefix == (if HomePrefix().Ok? then Some(HomePrefix().value) else None)
    {
      var prepared := Pass;
      if signUrlPrefix.None? {
        prepared := PrepareSign();
      }
      if prepared.Fail? {
        return Err(prepared.error);
      }
      var url := signUrlPrefix.value + "kw=" + Quote(name);
      var content := Fetch(Phone(url));
      match SearchSign(content)
      case None =>
        r := Err(TiebaAlreadySigned);
      case Some(m) =>
        r := Ok(SITE + "/" + DropLast(unescape(SignMatchText(content, m.0, m.1)), |SIGN_TAIL|));
    }

    /** `sign_tieba(name)`. */
    method SignTieba(name: string) returns (r: Result<SignResult, PyError>)
      requires Valid()
      modifies this
      ensures Valid()
      ensures r == SignOutcome(name)
      ensures requests == old(requests) + PrefixRequests(old(signUrlPrefix)) + SignRequests(name)
      ensures signUrlPrefix == (if HomePrefix().Ok? then Some(HomePrefix().value) else None)
    {
      ghost var pre := requests + PrefixRequests(signUrlPrefix);
      var prepared := Pass;
      if signUrlPrefix.None? {
        prepared := PrepareSign();
      } else {
        AppendEmpty(requests);
      }
      if prepared.Fail? {
        PrefixFailed(name);
        AppendEmpty(pre);
        return Err(prepared.error);
      }
      var signUrl := GetTiebaSignUrl(name);
      AppendEmpty(pre);
      assert requests == pre + EntryRequests(name);
      match signUrl
      case Err(TiebaAlreadySigned) =>
        r := Ok(AlreadySigned);
        AppendEmpty(EntryRequests(name));
      case Err(e) =>
        r := Err(e);
        AppendEmpty(EntryRequests(name));
      case Ok(url) =>
        var content := Fetch(Phone(url));
        r := Ok(Success);
        AppendAssoc(pre, EntryRequests(name), [Phone(url)]);
    }

    /** Without a prefix nothing more is requested and the prefix's error escapes. */
    lemma PrefixFailed(name: string)
      requires HomePrefix().Err?
      ensures SignOutcome(name) == Err(HomePrefix().error)
      ensures SignRequests(name) == []
    {
    }

    /** `sign_tieba` never reports `failed`; it reports `already_signed`
        exactly when the forum page has no sign link, and the sign URL is
        requested just when one is found. */
    lemma SignOutcomeCases(name: string)
      ensures SignOutcome(name) != Ok(Failed)
      ensures SignOutcome(name) == Ok(AlreadySigned) <==>
        HomePrefix().Ok? && SearchSign(web(Phone(EntryUrl(HomePrefix().value, name)))).None?
      ensures SignOutcome(name) == Ok(Success) <==>
        HomePrefix().Ok? && SearchSign(web(Phone(EntryUrl(HomePrefix().value, name)))).Some?
      ensures SignOutcome(name).Err? <==> HomePrefix().Err?
      ensures |SignRequests(name)| == (if SignOutcome(name) == Ok(Success) then 2
        else if SignOutcome(name) == Ok(AlreadySigned) then 1 else 0)
    {
    }
  }
}
