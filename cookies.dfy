/** `src/request_adapter.py`: the cookie jar of one account and the codec
    between the jar and the flat `name=value;name=value` string stored in
    `Account.cookie`. The jar is `http.cookiejar.CookieJar`; every cookie here
    has the one domain `baidu.com` and the one path `/`, so the jar is keyed by
    name alone, and it iterates in ascending order of names, as CPython's
    `CookieJar.__iter__` does. */
module Cookies {
  import opened Common
  import opened Model

  /** Declared by the source but read nowhere: no request is ever delayed. */
  const HTTP_REQUEST_INTERVAL: int := 3

  const COOKIE_DOMAIN := "baidu.com"
  const COOKIE_PATH := "/"

  /** The fields of `http.cookiejar.Cookie` that the program sets or reads;
      `expires` is a time in seconds, `None` for a session cookie. */
  datatype Cookie = Cookie(
    name: string,
    value: string,
    domain: string,
    path: string,
    expires: Option<int>)

  /** `make_cookie`. */
  function MakeCookie(name: string, value: string): Cookie {
    Cookie(name, value, COOKIE_DOMAIN, COOKIE_PATH, None)
  }

  /** `Cookie.is_expired(now)`. */
  predicate IsExpired(c: Cookie, now: int) {
    c.expires.Some? && c.expires.value <= now
  }

  // ---------------------------------------------------------------------
  // Python's ordering of `str` (code point by code point), which orders the jar.

  predicate Less(a: string, b: string)
    decreases |a|
  {
    if |a| == 0 then |b| > 0
    else if |b| == 0 then false
    else if a[0] != b[0] then a[0] < b[0]
    else Less(a[1..], b[1..])
  }

  lemma {:induction false} LessIrreflexive(a: string)
    ensures !Less(a, a)
    decreases |a|
  {
    if |a| > 0 { LessIrreflexive(a[1..]); }
  }

  lemma {:induction false} LessTransitive(a: string, b: string, c: string)
    requires Less(a, b) && Less(b, c)
    ensures Less(a, c)
    decreases |a|
  {
    if |a| > 0 && a[0] == b[0] == c[0] {
      LessTransitive(a[1..], b[1..], c[1..]);
    }
  }

  lemma {:induction false} LessTotal(a: string, b: string)
    ensures a == b || Less(a, b) || Less(b, a)
    decreases |a|
  {
    if |a| > 0 && |b| > 0 && a[0] == b[0] {
      LessTotal(a[1..], b[1..]);
      if a[1..] == b[1..] {
        assert a == [a[0]] + a[1..] && b == [b[0]] + b[1..];
      }
    }
  }

  // ---------------------------------------------------------------------
  // The jar, as the sequence of its cookies in iteration order.

  ghost predicate SortedNames(jar: seq<Cookie>) {
    forall i, j :: 0 <= i < j < |jar| ==> Less(jar[i].name, jar[j].name)
  }

  /** The jar as a dictionary from name to cookie. */
  function Contents(jar: seq<Cookie>): map<string, Cookie> {
    if jar == [] then map[] else Contents(jar[1..])[jar[0].name := jar[0]]
  }

  /** The jar as a dictionary from name to value. */
  function Values(jar: seq<Cookie>): map<string, string> {
    var m := Contents(jar);
    map n | n in m :: m[n].value
  }

  lemma {:induction false} ContentsKeys(jar: seq<Cookie>)
    ensures forall n :: n in Contents(jar) <==> exists i :: 0 <= i < |jar| && jar[i].name == n
    ensures forall n :: n in Contents(jar) ==> Contents(jar)[n] in jar && Contents(jar)[n].name == n
  {
    if jar != [] {
      ContentsKeys(jar[1..]);
      forall n | exists i :: 0 <= i < |jar| && jar[i].name == n
        ensures n in Contents(jar)
      {
        var i :| 0 <= i < |jar| && jar[i].name == n;
        if i > 0 { assert jar[1..][i - 1].name == n; }
      }
    }
  }

  /** `CookieJar.set_cookie`: the cookie takes the place of the one with its
      name, or is inserted where its name sorts. */
  function SetCookie(jar: seq<Cookie>, c: Cookie): seq<Cookie>
    decreases |jar|
  {
    if jar == [] then [c]
    else if jar[0].name == c.name then [c] + jar[1..]
    else if Less(c.name, jar[0].name) then [c] + jar
    else [jar[0]] + SetCookie(jar[1..], c)
  }

  /** `set_cookie` adds the cookie, drops only the cookie it replaces, and
      adds nothing else. */
  lemma {:induction false} SetCookieMembers(jar: seq<Cookie>, c: Cookie)
    ensures c in SetCookie(jar, c)
    ensures forall x :: x in SetCookie(jar, c) ==> x in jar || x == c
    ensures forall x :: x in jar && x.name != c.name ==> x in SetCookie(jar, c)
    decreases |jar|
  {
    if jar != [] && jar[0].name != c.name && !Less(c.name, jar[0].name) {
      SetCookieMembers(jar[1..], c);
      forall x | x in jar && x.name != c.name ensures x in SetCookie(jar, c) {
        if x != jar[0] {
          var k :| 0 <= k < |jar| && jar[k] == x;
          assert jar[1..][k - 1] == x;
        }
      }
    }
  }

  lemma SortedTail(jar: seq<Cookie>)
    requires SortedNames(jar) && jar != []
    ensures SortedNames(jar[1..])
  {
    var tail := jar[1..];
    forall i, j | 0 <= i < j < |tail| ensures Less(tail[i].name, tail[j].name) {
      assert tail[i] == jar[i + 1] && tail[j] == jar[j + 1];
    }
  }

  /** `set_cookie` keeps the jar in name order. */
  lemma {:induction false} SetCookieSorted(jar: seq<Cookie>, c: Cookie)
    requires SortedNames(jar)
    ensures SortedNames(SetCookie(jar, c))
    decreases |jar|
  {
    if jar == [] {
    } else if jar[0].name == c.name {
      var r := [c] + jar[1..];
      forall i, j | 0 <= i < j < |r| ensures Less(r[i].name, r[j].name) {
        assert r[j] == jar[j];
        if i > 0 { assert r[i] == jar[i]; }
      }
    } else if Less(c.name, jar[0].name) {
      var r := [c] + jar;
      forall i, j | 0 <= i < j < |r| ensures Less(r[i].name, r[j].name) {
        assert r[j] == jar[j - 1];
        if i > 0 { assert r[i] == jar[i - 1]; }
        else if j > 1 { LessTransitive(c.name, jar[0].name, jar[j - 1].name); }
      }
    } else {
      SetCookieSortedStep(jar, c);
    }
  }

  lemma SetCookieSortedStep(jar: seq<Cookie>, c: Cookie)
    requires SortedNames(jar) && jar != []
    requires jar[0].name != c.name && !Less(c.name, jar[0].name)
    ensures SortedNames([jar[0]] + SetCookie(jar[1..], c))
    decreases |jar|, 0
  {
    SortedTail(jar);
    SetCookieSorted(jar[1..], c);
    HeadBelowSetCookie(jar, c);
    SortedCons(jar[0], SetCookie(jar[1..], c));
  }

  lemma HeadBelowSetCookie(jar: seq<Cookie>, c: Cookie)
    requires SortedNames(jar) && jar != []
    requires jar[0].name != c.name && !Less(c.name, jar[0].name)
    ensures forall x :: x in SetCookie(jar[1..], c) ==> Less(jar[0].name, x.name)
  {
    LessTotal(c.name, jar[0].name);
    var tail := jar[1..];
    SetCookieMembers(tail, c);
    forall x | x in SetCookie(tail, c) ensures Less(jar[0].name, x.name) {
      if x != c {
        var k :| 0 <= k < |tail| && tail[k] == x;
        assert jar[k + 1] == x;
      }
    }
  }

  lemma SortedCons(h: Cookie, rest: seq<Cookie>)
    requires SortedNames(rest)
    requires forall x :: x in rest ==> Less(h.name, x.name)
    ensures SortedNames([h] + rest)
  {
    var r := [h] + rest;
    forall i, j | 0 <= i < j < |r| ensures Less(r[i].name, r[j].name) {
      assert r[j] == rest[j - 1];
      if i > 0 { assert r[i] == rest[i - 1]; }
      else { assert rest[j - 1] in rest; }
    }
  }


  /** `set_cookie` overwrites exactly the dictionary entry of the cookie's name. */
  lemma {:induction false} SetCookieContents(jar: seq<Cookie>, c: Cookie)
    ensures Contents(SetCookie(jar, c)) == Contents(jar)[c.name := c]
    decreases |jar|
  {
    if jar == [] {
    } else if jar[0].name == c.name {
      assert ([c] + jar[1..])[1..] == jar[1..];
    } else if Less(c.name, jar[0].name) {
      assert ([c] + jar)[1..] == jar;
    } else {
      var rest := SetCookie(jar[1..], c);
      SetCookieContents(jar[1..], c);
      assert ([jar[0]] + rest)[1..] == rest;
    }
  }

  /** Every cookie of an ordered jar is the dictionary entry of its name. */
  lemma {:induction false} SortedContents(jar: seq<Cookie>)
    requires SortedNames(jar)
    ensures forall i :: 0 <= i < |jar| ==> jar[i].name in Contents(jar) && Contents(jar)[jar[i].name] == jar[i]
  {
    if jar != [] {
      var tail := jar[1..];
      SortedTail(jar);
      SortedContents(tail);
      forall i | 0 <= i < |jar| ensures jar[i].name in Contents(jar) && Contents(jar)[jar[i].name] == jar[i] {
        if i > 0 {
          assert tail[i - 1] == jar[i];
          assert Less(jar[0].name, jar[i].name);
          LessIrreflexive(jar[0].name);
        }
      }
    }
  }

  // ---------------------------------------------------------------------
  // `load`: split on every ';', then each segment on its first '='.

  /** Every segment holds a '=', so `load` can unpack each of them. */
  predicate AllUnpack(segs: seq<string>) {
    forall j :: 0 <= j < |segs| ==> '=' in segs[j]
  }

  /** The name/value pair of a segment, as `split('=', 1)` unpacks it. */
  function Pair(seg: string): (string, string)
    requires '=' in seg
  {
    SplitFirst(seg, '=').value
  }

  /** The index of the first segment that `name, value = seg.split('=', 1)`
      cannot unpack, or the number of segments when every segment unpacks. */
  function FirstUnparsable(segs: seq<string>): (k: nat)
    ensures k <= |segs|
    ensures forall j :: 0 <= j < k ==> '=' in segs[j]
    ensures k < |segs| ==> '=' !in segs[k]
  {
    if segs == [] then 0
    else if '=' !in segs[0] then 0
    else 1 + FirstUnparsable(segs[1..])
  }


  /** The jar after `set_cookie(make_cookie(name, value))` for every segment in order. */
  function ApplySegments(jar: seq<Cookie>, segs: seq<string>): seq<Cookie>
    requires AllUnpack(segs)
    decreases |segs|
  {
    if segs == [] then jar
    else
      var (name, value) := Pair(segs[|segs| - 1]);
      SetCookie(ApplySegments(jar, segs[..|segs| - 1]), MakeCookie(name, value))
  }

  /** One more segment is one more `set_cookie`. */
  lemma ApplySegmentsStep(jar: seq<Cookie>, segs: seq<string>, i: nat)
    requires i < |segs| && AllUnpack(segs[..i]) && '=' in segs[i]
    ensures AllUnpack(segs[..i + 1])
    ensures ApplySegments(jar, segs[..i + 1]) ==
            SetCookie(ApplySegments(jar, segs[..i]), MakeCookie(Pair(segs[i]).0, Pair(segs[i]).1))
  {
    assert segs[..i + 1][..i] == segs[..i];
  }

  /** The cookies the segments define: each name before its segment's first
      '=', kept verbatim, with the value of the last segment that names it. */
  function LoadedCookies(segs: seq<string>): map<string, Cookie>
    requires AllUnpack(segs)
    decreases |segs|
  {
    if segs == [] then map[]
    else
      var (name, value) := Pair(segs[|segs| - 1]);
      LoadedCookies(segs[..|segs| - 1])[name := MakeCookie(name, value)]
  }

  /** `load` keeps the jar in name order. */
  lemma {:induction false} ApplySegmentsSorted(jar: seq<Cookie>, segs: seq<string>)
    requires SortedNames(jar)
    requires AllUnpack(segs)
    ensures SortedNames(ApplySegments(jar, segs))
    decreases |segs|
  {
    if segs != [] {
      var init := segs[..|segs| - 1];
      ApplySegmentsSorted(jar, init);
      var (name, value) := Pair(segs[|segs| - 1]);
      SetCookieSorted(ApplySegments(jar, init), MakeCookie(name, value));
    }
  }

  /** What `load` does to the jar's dictionary: the loaded cookies are laid
      over what was there, a later segment replacing an earlier one. */
  lemma {:induction false} ApplySegmentsContents(jar: seq<Cookie>, segs: seq<string>)
    requires AllUnpack(segs)
    ensures Contents(ApplySegments(jar, segs)) == Contents(jar) + LoadedCookies(segs)
    decreases |segs|
  {
    if segs != [] {
      var init := segs[..|segs| - 1];
      ApplySegmentsContents(jar, init);
      var p := Pair(segs[|segs| - 1]);
      var c := MakeCookie(p.0, p.1);
      var prev := ApplySegments(jar, init);
      SetCookieContents(prev, c);
      OverlayUpdate(Contents(jar), LoadedCookies(init), p.0, c);
    }
  }

  lemma OverlayUpdate<K, V>(a: map<K, V>, b: map<K, V>, k: K, v: V)
    ensures (a + b)[k := v] == a + b[k := v]
  {
  }

  /** Every loaded cookie is a session cookie of `baidu.com` and path `/`,
      filed under its own name. */
  lemma {:induction false} LoadedCookiesAreSession(segs: seq<string>)
    requires AllUnpack(segs)
    ensures forall n :: n in LoadedCookies(segs) ==>
      var c := LoadedCookies(segs)[n];
      c.name == n && c.domain == "baidu.com" && c.path == "/" && c.expires == None
    decreases |segs|
  {
    if segs != [] {
      LoadedCookiesAreSession(segs[..|segs| - 1]);
    }
  }

  /** The loaded names are exactly the texts before the first '=' of the
      segments, untrimmed. */
  lemma LoadedCookiesNames(segs: seq<string>)
    requires AllUnpack(segs)
    ensures forall n :: n in LoadedCookies(segs) <==> exists j :: 0 <= j < |segs| && Pair(segs[j]).0 == n
  {
    forall n ensures n in LoadedCookies(segs) <==> exists j :: 0 <= j < |segs| && Pair(segs[j]).0 == n {
      if n in LoadedCookies(segs) {
        LoadedNameFrom(segs, n);
      }
      if j :| 0 <= j < |segs| && Pair(segs[j]).0 == n {
        LoadedHasName(segs, j);
      }
    }
  }

  lemma {:induction false} LoadedHasName(segs: seq<string>, j: nat)
    requires AllUnpack(segs) && j < |segs|
    ensures Pair(segs[j]).0 in LoadedCookies(segs)
    decreases |segs|
  {
    if j < |segs| - 1 {
      var init := segs[..|segs| - 1];
      assert init[j] == segs[j];
      LoadedHasName(init, j);
    }
  }

  lemma {:induction false} LoadedNameFrom(segs: seq<string>, n: string)
    requires AllUnpack(segs) && n in LoadedCookies(segs)
    ensures exists j :: 0 <= j < |segs| && Pair(segs[j]).0 == n
    decreases |segs|
  {
    var last := |segs| - 1;
    if Pair(segs[last]).0 != n {
      var init := segs[..last];
      LoadedNameFrom(init, n);
      var j :| 0 <= j < |init| && Pair(init[j]).0 == n;
      assert segs[j] == init[j];
    }
  }

  /** A name takes its value from the last segment that names it: everything
      after that segment's first '=', untrimmed, '=' characters included. */
  lemma {:induction false} LoadedCookiesLastWins(segs: seq<string>, j: nat)
    requires AllUnpack(segs)
    requires j < |segs|
    requires forall i :: j < i < |segs| ==> Pair(segs[i]).0 != Pair(segs[j]).0
    ensures Pair(segs[j]).0 in LoadedCookies(segs)
    ensures LoadedCookies(segs)[Pair(segs[j]).0].value == Pair(segs[j]).1
    decreases |segs|
  {
    if j < |segs| - 1 {
      var init := segs[..|segs| - 1];
      assert init[j] == segs[j];
      forall i | j < i < |init| ensures Pair(init[i]).0 != Pair(init[j]).0 {
        assert init[i] == segs[i];
      }
      LoadedCookiesLastWins(init, j);
    }
  }

  /** Cookies created by `load` never expire: every cookie of a jar loaded
      from nothing is a session cookie, whatever the time. */
  lemma {:induction false} LoadedNeverExpire(segs: seq<string>, now: int)
    requires AllUnpack(segs)
    ensures forall c :: c in ApplySegments([], segs) ==> c.expires == None && !IsExpired(c, now)
    decreases |segs|
  {
    if segs != [] {
      var init := segs[..|segs| - 1];
      LoadedNeverExpire(init, now);
      var p := Pair(segs[|segs| - 1]);
      SetCookieMembers(ApplySegments([], init), MakeCookie(p.0, p.1));
    }
  }

  /** Where `load` stops: at the first segment without '=', or after the last. */
  lemma LoadStopsAt(jar: seq<Cookie>, segs: seq<string>, i: nat)
    requires i <= |segs| && AllUnpack(segs[..i])
    requires i < |segs| ==> '=' !in segs[i]
    ensures FirstUnparsable(segs) == i
    ensures Contents(ApplySegments(jar, segs[..i])) == Contents(jar) + LoadedCookies(segs[..i])
  {
    assert forall j :: 0 <= j < i ==> segs[..i][j] == segs[j];
    ApplySegmentsContents(jar, segs[..i]);
  }

  // ---------------------------------------------------------------------
  // `save`: `name=value;` for every cookie that has not expired.

  /** One saved entry, without its terminating ';'. */
  function EntryText(c: Cookie): string {
    c.name + "=" + c.value
  }

  /** The string `save` builds for the cookies of `jar`, in order. */
  function CookieString(jar: seq<Cookie>, now: int): string
    decreases |jar|
  {
    if jar == [] then ""
    else
      var c := jar[|jar| - 1];
      CookieString(jar[..|jar| - 1], now) + (if IsExpired(c, now) then "" else EntryText(c) + ";")
  }

  /** The cookies of `jar` that have not expired at `now`, in jar order:
      an ordered jar gives an ordered result. */
  function Live(jar: seq<Cookie>, now: int): (r: seq<Cookie>)
    ensures forall c :: c in r <==> c in jar && !IsExpired(c, now)
    ensures SortedNames(jar) ==> SortedNames(r)
    decreases |jar|
  {
    if jar == [] then []
    else
      var c := jar[|jar| - 1];
      var init := jar[..|jar| - 1];
      assert jar == init + [c];
      var l := Live(init, now);
      LiveStep(jar, l);
      l + (if IsExpired(c, now) then [] else [c])
  }

  /** One step of `Live`: keeping the last cookie after the live cookies of
      the others keeps an ordered jar ordered. */
  lemma LiveStep(jar: seq<Cookie>, l: seq<Cookie>)
    requires jar != []
    requires forall x :: x in l ==> x in jar[..|jar| - 1]
    requires SortedNames(jar[..|jar| - 1]) ==> SortedNames(l)
    ensures SortedNames(jar) ==> SortedNames(l) && SortedNames(l + [jar[|jar| - 1]])
  {
    if SortedNames(jar) {
      var c := jar[|jar| - 1];
      var init := jar[..|jar| - 1];
      SortedPrefix(jar, |jar| - 1);
      var r := l + [c];
      forall i, j | 0 <= i < j < |r| ensures Less(r[i].name, r[j].name) {
        if j == |r| - 1 {
          assert r[i] == l[i] && l[i] in l;
          var k :| 0 <= k < |init| && init[k] == r[i];
          assert jar[k] == r[i];
        } else {
          assert r[i] == l[i] && r[j] == l[j];
        }
      }
    }
  }

  function Entries(jar: seq<Cookie>): (r: seq<string>)
    ensures |r| == |jar| && forall i :: 0 <= i < |jar| ==> r[i] == EntryText(jar[i])
  {
    seq(|jar|, i requires 0 <= i < |jar| => EntryText(jar[i]))
  }

  /** The saved string is the live cookies' `name=value` texts, each closed by ';'. */
  lemma {:induction false} CookieStringJoin(jar: seq<Cookie>, now: int)
    ensures CookieString(jar, now) == Join(Entries(Live(jar, now)) + [""], ';')
    decreases |jar|
  {
    if jar != [] {
      var c := jar[|jar| - 1];
      var init := jar[..|jar| - 1];
      CookieStringJoin(init, now);
      LiveLast(jar, now);
      if !IsExpired(c, now) {
        JoinSnoc(Entries(Live(init, now)), EntryText(c));
        EntriesSnoc(Live(init, now), c);
      } else {
        assert Live(jar, now) == Live(init, now);
        assert CookieString(jar, now) == CookieString(init, now) + "";
      }
    }
  }

  /** `Live` on a non-empty jar, one cookie from the end. */
  lemma LiveLast(jar: seq<Cookie>, now: int)
    requires jar != []
    ensures Live(jar, now) == Live(jar[..|jar| - 1], now) + (if IsExpired(jar[|jar| - 1], now) then [] else [jar[|jar| - 1]])
  {
  }

  lemma EntriesSnoc(l: seq<Cookie>, c: Cookie)
    ensures Entries(l + [c]) == Entries(l) + [EntryText(c)]
  {
  }

  /** Appending an entry before the trailing empty piece appends `entry;`. */
  lemma {:induction false} JoinSnoc(pieces: seq<string>, entry: string)
    ensures Join(pieces + [entry] + [""], ';') == Join(pieces + [""], ';') + entry + ";"
    decreases |pieces|
  {
    if pieces != [] {
      assert (pieces + [entry] + [""])[1..] == pieces[1..] + [entry] + [""];
      assert (pieces + [""])[1..] == pieces[1..] + [""];
      JoinSnoc(pieces[1..], entry);
    }
  }

  ghost predicate Storable(jar: seq<Cookie>) {
    forall c :: c in jar ==> ';' !in c.name && '=' !in c.name && ';' !in c.value
  }

  /** `save` emits exactly one `name=value` segment per unexpired cookie, in jar
      order, skips expired ones, and its string ends in ';' so the last
      segment of its split is empty. */
  lemma SavedSegments(jar: seq<Cookie>, now: int)
    requires Storable(jar)
    ensures Split(CookieString(jar, now), ';') == Entries(Live(jar, now)) + [""]
  {
    CookieStringJoin(jar, now);
    var pieces := Entries(Live(jar, now)) + [""];
    forall i | 0 <= i < |pieces| ensures ';' !in pieces[i] {
      if i < |pieces| - 1 {
        var c := Live(jar, now)[i];
        assert c in jar;
        assert pieces[i] == c.name + "=" + c.value;
      }
    }
    SplitJoin(pieces, ';');
  }

  /** A jar loaded from nothing saves every cookie it holds. */
  lemma SaveAfterLoadKeepsAll(segs: seq<string>, now: int)
    requires AllUnpack(segs)
    ensures Live(ApplySegments([], segs), now) == ApplySegments([], segs)
  {
    LoadedNeverExpire(segs, now);
    LiveOfFresh(ApplySegments([], segs), now);
  }

  lemma {:induction false} LiveOfFresh(jar: seq<Cookie>, now: int)
    requires forall c :: c in jar ==> !IsExpired(c, now)
    ensures Live(jar, now) == jar
    decreases |jar|
  {
    if jar != [] {
      var init := jar[..|jar| - 1];
      assert jar == init + [jar[|jar| - 1]];
      LiveOfFresh(init, now);
    }
  }

  // ---------------------------------------------------------------------
  // Loading what `save` wrote.

  /** The last piece of a split is empty when the string is empty or ends in the separator. */
  lemma SplitLastEmpty(s: string, c: char)
    requires s == [] || s[|s| - 1] == c
    ensures Split(s, c)[|Split(s, c)| - 1] == ""
  {
    var r := Split(s, c);
    JoinSuffix(r, c);
    var last := r[|r| - 1];
    assert c !in last;
  }

  /** The last piece is a suffix of the joined string. */
  lemma {:induction false} JoinSuffix(pieces: seq<string>, c: char)
    requires |pieces| >= 1
    ensures var s := Join(pieces, c); var last := pieces[|pieces| - 1];
            |last| <= |s| && s[|s| - |last|..] == last
    decreases |pieces|
  {
    if |pieces| > 1 {
      JoinSuffix(pieces[1..], c);
      var rest := Join(pieces[1..], c);
      var s := pieces[0] + [c] + rest;
      var last := pieces[|pieces| - 1];
      assert last == pieces[1..][|pieces[1..]| - 1];
      assert s[|s| - |last|..] == rest[|rest| - |last|..];
    } else {
      assert Join(pieces, c)[0..] == Join(pieces, c);
    }
  }

  /** As written, `load` cannot read back what `save` wrote: the string ends
      in ';', its last segment is empty, and unpacking that segment raises. */
  lemma SaveOutputFailsToLoad(jar: seq<Cookie>, now: int)
    ensures var segs := Split(CookieString(jar, now), ';');
            FirstUnparsable(segs) < |segs|
  {
    var s := CookieString(jar, now);
    CookieStringJoin(jar, now);
    var pieces := Entries(Live(jar, now)) + [""];
    JoinEndsWith(pieces, ';');
    SplitLastEmpty(s, ';');
  }

  lemma {:induction false} JoinEndsWith(pieces: seq<string>, c: char)
    requires |pieces| >= 1 && pieces[|pieces| - 1] == ""
    ensures var s := Join(pieces, c); s == [] || s[|s| - 1] == c
    decreases |pieces|
  {
    if |pieces| > 1 {
      JoinEndsWith(pieces[1..], c);
      if |pieces| == 2 {
        assert Join(pieces[1..], c) == "";
      }
    }
  }

  /** The jar's cookies as `load` would recreate them: same names and values, session cookies. */
  function AsSession(jar: seq<Cookie>): (r: seq<Cookie>)
    ensures |r| == |jar|
    ensures forall i :: 0 <= i < |jar| ==> r[i] == MakeCookie(jar[i].name, jar[i].value)
  {
    seq(|jar|, i requires 0 <= i < |jar| => MakeCookie(jar[i].name, jar[i].value))
  }

  lemma {:induction false} SetCookieAppends(jar: seq<Cookie>, c: Cookie)
    requires forall x :: x in jar ==> Less(x.name, c.name)
    ensures SetCookie(jar, c) == jar + [c]
    decreases |jar|
  {
    if jar != [] {
      assert jar[0] in jar;
      LessIrreflexive(c.name);
      if Less(c.name, jar[0].name) {
        LessTransitive(c.name, jar[0].name, c.name);
      }
      forall x | x in jar[1..] ensures Less(x.name, c.name) {
        assert x in jar;
      }
      SetCookieAppends(jar[1..], c);
      assert [jar[0]] + (jar[1..] + [c]) == jar + [c];
    }
  }

  lemma SortedPrefix(jar: seq<Cookie>, n: nat)
    requires SortedNames(jar) && n <= |jar|
    ensures SortedNames(jar[..n])
  {
    var p := jar[..n];
    forall i, j | 0 <= i < j < |p| ensures Less(p[i].name, p[j].name) {
      assert p[i] == jar[i] && p[j] == jar[j];
    }
  }

  /** Every entry `save` writes holds an '='. */
  lemma EntriesUnpack(jar: seq<Cookie>)
    ensures AllUnpack(Entries(jar))
  {
    var es := Entries(jar);
    forall j | 0 <= j < |es| ensures '=' in es[j] {
      assert es[j][|jar[j].name|] == '=';
    }
  }

  /** The entry `save` writes for a storable cookie unpacks to its name and value. */
  lemma EntryPair(c: Cookie)
    requires '=' !in c.name
    ensures '=' in EntryText(c) && Pair(EntryText(c)) == (c.name, c.value)
  {
    SplitFirstUnique(c.name, '=', c.value);
    assert EntryText(c)[|c.name|] == '=';
  }

  /** In an ordered jar, every cookie before the last sorts below the last. */
  lemma SessionBelowLast(jar: seq<Cookie>)
    requires SortedNames(jar) && jar != []
    ensures forall x :: x in AsSession(jar[..|jar| - 1]) ==> Less(x.name, jar[|jar| - 1].name)
  {
    var prev := AsSession(jar[..|jar| - 1]);
    forall x | x in prev ensures Less(x.name, jar[|jar| - 1].name) {
      var k :| 0 <= k < |prev| && prev[k] == x;
      assert jar[k].name == x.name;
    }
  }

  lemma EntriesPrefix(jar: seq<Cookie>)
    requires jar != []
    ensures Entries(jar[..|jar| - 1]) == Entries(jar)[..|jar| - 1]
    ensures AsSession(jar) == AsSession(jar[..|jar| - 1]) + [MakeCookie(jar[|jar| - 1].name, jar[|jar| - 1].value)]
  {
  }

  /** Loading the `name=value` entries of an ordered jar, in order, rebuilds
      that jar as session cookies. */
  lemma {:induction false} ApplyEntries(jar: seq<Cookie>)
    requires SortedNames(jar) && Storable(jar)
    ensures AllUnpack(Entries(jar))
    ensures ApplySegments([], Entries(jar)) == AsSession(jar)
    decreases |jar|
  {
    EntriesUnpack(jar);
    if jar != [] {
      var c := jar[|jar| - 1];
      var init := jar[..|jar| - 1];
      SortedPrefix(jar, |jar| - 1);
      assert Storable(init);
      EntriesPrefix(jar);
      ApplyEntries(init);
      assert c in jar;
      EntryPair(c);
      SessionBelowLast(jar);
      SetCookieAppends(AsSession(init), MakeCookie(c.name, c.value));
    }
  }

  /** As written: loading the saved string into an empty jar sets every
      unexpired cookie again, in order, and then raises `ValueError` on the
      empty last segment. */
  lemma SaveThenLoad(jar: seq<Cookie>, now: int)
    requires SortedNames(jar) && Storable(jar)
    ensures var segs := Split(CookieString(jar, now), ';');
            var k := FirstUnparsable(segs);
            && k == |segs| - 1
            && ApplySegments([], segs[..k]) == AsSession(Live(jar, now))
  {
    var live := Live(jar, now);
    SavedSegments(jar, now);
    var es := Entries(live);
    var segs := es + [""];
    SnocParts(es, "");
    EntriesUnpack(live);
    LoadStopsAt([], segs, |es|);
    assert Storable(live);
    ApplyEntries(live);
  }

  lemma SnocParts<T>(xs: seq<T>, x: T)
    ensures (xs + [x])[..|xs|] == xs && (xs + [x])[|xs|] == x
  {
  }

  /** Every cookie is as `make_cookie` builds it from its name and value. */
  ghost predicate SessionJar(jar: seq<Cookie>) {
    forall c :: c in jar ==> c == MakeCookie(c.name, c.value)
  }

  /** A jar of `make_cookie` cookies is its own session copy, and none of
      its cookies expires. */
  lemma SessionJarFixed(jar: seq<Cookie>, now: int)
    requires SessionJar(jar)
    ensures AsSession(jar) == jar
    ensures Live(jar, now) == jar
  {
    forall i | 0 <= i < |jar| ensures AsSession(jar)[i] == jar[i] {
      assert jar[i] in jar;
    }
    LiveOfFresh(jar, now);
  }

  /** A segment free of ';' unpacks to a name free of ';' and '=' and a
      value free of ';'. */
  lemma PairStorable(seg: string)
    requires '=' in seg && ';' !in seg
    ensures ';' !in Pair(seg).0 && '=' !in Pair(seg).0 && ';' !in Pair(seg).1
  {
    var p := Pair(seg);
    assert seg == p.0 + "=" + p.1;
    forall k | 0 <= k < |p.0| ensures p.0[k] != ';' {
      assert p.0[k] == seg[k];
    }
    forall k | 0 <= k < |p.1| ensures p.1[k] != ';' {
      assert p.1[k] == seg[|p.0| + 1 + k];
    }
  }

  /** Loading segments free of ';' into a storable jar of `make_cookie`
      cookies keeps it so. */
  lemma {:induction false} ApplySegmentsStorable(jar: seq<Cookie>, segs: seq<string>)
    requires AllUnpack(segs) && Storable(jar) && SessionJar(jar)
    requires forall j :: 0 <= j < |segs| ==> ';' !in segs[j]
    ensures Storable(ApplySegments(jar, segs)) && SessionJar(ApplySegments(jar, segs))
    decreases |segs|
  {
    if segs != [] {
      var init := segs[..|segs| - 1];
      assert forall j :: 0 <= j < |init| ==> init[j] == segs[j];
      ApplySegmentsStorable(jar, init);
      var seg := segs[|segs| - 1];
      PairStorable(seg);
      SetCookieMembers(ApplySegments(jar, init), MakeCookie(Pair(seg).0, Pair(seg).1));
    }
  }

  /** As written, end to end: the jar `load` builds from any string saves to
      a string whose `load` rebuilds that very jar and then raises
      `ValueError` on the empty last segment. */
  lemma LoadSaveLoad(s: string, now: int)
    ensures var segs := Split(s, ';');
            var jar := ApplySegments([], segs[..FirstUnparsable(segs)]);
            var again := Split(CookieString(jar, now), ';');
            var k := FirstUnparsable(again);
            && k == |again| - 1
            && ApplySegments([], again[..k]) == jar
  {
    var segs := Split(s, ';');
    var loaded := segs[..FirstUnparsable(segs)];
    assert forall j :: 0 <= j < |loaded| ==> loaded[j] == segs[j];
    var jar := ApplySegments([], loaded);
    ApplySegmentsSorted([], loaded);
    ApplySegmentsStorable([], loaded);
    SessionJarFixed(jar, now);
    SaveThenLoad(jar, now);
  }

  // The evidently intended `load`: it skips empty segments and trims spaces.

  /** `load` with the two corrections: an empty segment is skipped, so the
      trailing ';' that `save` writes is harmless, and `strip(' ')` is applied. */
  function IntendedApply(jar: seq<Cookie>, segs: seq<string>): Result<seq<Cookie>, PyError>
    decreases |segs|
  {
    if segs == [] then Ok(jar)
    else
      match IntendedApply(jar, segs[..|segs| - 1])
      case Err(e) => Err(e)
      case Ok(j) =>
        var seg := segs[|segs| - 1];
        if seg == "" then Ok(j)
        else
          match SplitFirst(seg, '=')
          case None => Err(ValueError)
          case Some(p) => Ok(SetCookie(j, MakeCookie(StripSpaces(p.0), StripSpaces(p.1))))
  }

  function IntendedLoad(jar: seq<Cookie>, s: string): Result<seq<Cookie>, PyError> {
    IntendedApply(jar, Split(s, ';'))
  }

  ghost predicate Trimmed(jar: seq<Cookie>) {
    forall c :: c in jar ==> StripSpaces(c.name) == c.name && StripSpaces(c.value) == c.value
  }

  /** The corrected `load` stores trimmed names and values. */
  lemma {:induction false} IntendedLoadTrims(segs: seq<string>)
    ensures IntendedApply([], segs).Ok? ==> Trimmed(IntendedApply([], segs).value)
    decreases |segs|
  {
    if segs != [] {
      IntendedLoadTrims(segs[..|segs| - 1]);
      var prev := IntendedApply([], segs[..|segs| - 1]);
      var seg := segs[|segs| - 1];
      if prev.Ok? && seg != "" && SplitFirst(seg, '=').Some? {
        var p := SplitFirst(seg, '=').value;
        var c := MakeCookie(StripSpaces(p.0), StripSpaces(p.1));
        SetCookieMembers(prev.value, c);
      }
    }
  }

  lemma {:induction false} IntendedApplyEntries(jar: seq<Cookie>, segs: seq<string>)
    requires AllUnpack(segs)
    requires forall j :: 0 <= j < |segs| ==>
      segs[j] != "" && StripSpaces(Pair(segs[j]).0) == Pair(segs[j]).0 && StripSpaces(Pair(segs[j]).1) == Pair(segs[j]).1
    ensures IntendedApply(jar, segs) == Ok(ApplySegments(jar, segs))
    decreases |segs|
  {
    if segs != [] {
      IntendedApplyEntries(jar, segs[..|segs| - 1]);
    }
  }

  /** With the corrections, what `save` writes loads back: the jar is rebuilt
      from the unexpired cookies, in order, as session cookies. */
  lemma IntendedLoadRoundTrip(jar: seq<Cookie>, now: int)
    requires SortedNames(jar) && Storable(jar) && Trimmed(jar)
    ensures IntendedLoad([], CookieString(jar, now)) == Ok(AsSession(Live(jar, now)))
  {
    var live := Live(jar, now);
    SavedSegments(jar, now);
    var segs := Split(CookieString(jar, now), ';');
    var es := Entries(live);
    assert segs == es + [""];
    assert segs[..|segs| - 1] == es;
    ApplyEntries(live);
    forall j | 0 <= j < |es| ensures es[j] != "" &&
      StripSpaces(Pair(es[j]).0) == Pair(es[j]).0 && StripSpaces(Pair(es[j]).1) == Pair(es[j]).1
    {
      var c := live[j];
      assert c in jar;
      SplitFirstUnique(c.name, '=', c.value);
      assert es[j][|c.name|] == '=';
    }
    IntendedApplyEntries([], es);
  }

  /** The cookie string `n1=v1; n2=v2`, written the way browsers copy it,
      with a space after the ';'. */
  function SpacedPair(n1: string, v1: string, n2: string, v2: string): string {
    n1 + "=" + v1 + "; " + n2 + "=" + v2
  }

  lemma SpacedPairSegments(n1: string, v1: string, n2: string, v2: string)
    requires ';' !in n1 && '=' !in n1 && ';' !in v1
    requires ';' !in n2 && '=' !in n2 && ';' !in v2
    ensures Split(SpacedPair(n1, v1, n2, v2), ';') == [n1 + "=" + v1, " " + n2 + "=" + v2]
    ensures '=' in n1 + "=" + v1 && Pair(n1 + "=" + v1) == (n1, v1)
    ensures '=' in " " + n2 + "=" + v2 && Pair(" " + n2 + "=" + v2) == (" " + n2, v2)
  {
    var pieces := [n1 + "=" + v1, " " + n2 + "=" + v2];
    assert Join(pieces, ';') == SpacedPair(n1, v1, n2, v2);
    assert ';' !in pieces[0] && ';' !in pieces[1];
    SplitJoin(pieces, ';');
    EntryPair(MakeCookie(n1, v1));
    EntryPair(MakeCookie(" " + n2, v2));
  }

  /** As written, spaces survive: `n1=v1; n2=v2` loads without error, but
      the second cookie is stored under ` n2`, with the leading space. */
  lemma LoadKeepsSpaces(n1: string, v1: string, n2: string, v2: string)
    requires ';' !in n1 && '=' !in n1 && ';' !in v1
    requires ';' !in n2 && '=' !in n2 && ';' !in v2
    ensures var segs := Split(SpacedPair(n1, v1, n2, v2), ';');
            && FirstUnparsable(segs) == |segs|
            && LoadedCookies(segs).Keys == {n1, " " + n2}
            && LoadedCookies(segs)[" " + n2].value == v2
  {
    SpacedPairSegments(n1, v1, n2, v2);
    LoadedTwo(n1 + "=" + v1, " " + n2 + "=" + v2);
  }

  /** Two segments that both unpack load as the map of their two pairs, the second winning. */
  lemma LoadedTwo(s0: string, s1: string)
    requires '=' in s0 && '=' in s1
    ensures FirstUnparsable([s0, s1]) == 2
    ensures LoadedCookies([s0, s1]).Keys == {Pair(s0).0, Pair(s1).0}
    ensures LoadedCookies([s0, s1])[Pair(s1).0] == MakeCookie(Pair(s1).0, Pair(s1).1)
  {
    var segs := [s0, s1];
    assert segs[1..] == [s1] && [s1][1..] == [];
    assert segs[..1] == [s0] && [s0][..0] == [];
    assert LoadedCookies([s0]) == map[Pair(s0).0 := MakeCookie(Pair(s0).0, Pair(s0).1)];
  }

  /** The cookie the corrected `load` makes of one segment. */
  function TrimmedCookie(seg: string): Cookie
    requires '=' in seg
  {
    MakeCookie(StripSpaces(Pair(seg).0), StripSpaces(Pair(seg).1))
  }

  lemma IntendedApplyTwo(s0: string, s1: string)
    requires s0 != "" && '=' in s0 && s1 != "" && '=' in s1
    ensures IntendedApply([], [s0, s1]) == Ok(SetCookie(SetCookie([], TrimmedCookie(s0)), TrimmedCookie(s1)))
  {
    var segs := [s0, s1];
    assert segs[..1] == [s0];
    assert [s0][..0] == [];
    assert IntendedApply([], []) == Ok([]);
    assert SplitFirst(s0, '=') == Some(Pair(s0));
    assert SplitFirst(s1, '=') == Some(Pair(s1));
    assert IntendedApply([], [s0]) == Ok(SetCookie([], TrimmedCookie(s0)));
  }

  lemma ValuesOfTwo(ca: Cookie, cb: Cookie)
    requires ca.name != cb.name
    ensures Values(SetCookie(SetCookie([], ca), cb)) == map[ca.name := ca.value, cb.name := cb.value]
  {
    ContentsOfTwo(ca, cb);
    ValuesOfPair(Contents(SetCookie(SetCookie([], ca), cb)), ca, cb);
  }

  lemma ContentsOfTwo(ca: Cookie, cb: Cookie)
    ensures Contents(SetCookie(SetCookie([], ca), cb)) == map[ca.name := ca, cb.name := cb]
  {
    SetCookieContents([], ca);
    SetCookieContents(SetCookie([], ca), cb);
    assert Contents([]) == map[];
  }

  lemma ValuesOfPair(m: map<string, Cookie>, ca: Cookie, cb: Cookie)
    requires ca.name != cb.name && m == map[ca.name := ca, cb.name := cb]
    ensures (map n | n in m :: m[n].value) == map[ca.name := ca.value, cb.name := cb.value]
  {
    var want := map[ca.name := ca.value, cb.name := cb.value];
    var got := map n | n in m :: m[n].value;
    assert got.Keys == want.Keys;
    forall n | n in want ensures got[n] == want[n] {
    }
  }

  /** With the corrections, the same string stores the trimmed names. */
  lemma IntendedLoadTrimsPair(n1: string, v1: string, n2: string, v2: string)
    requires ';' !in n1 && '=' !in n1 && ';' !in v1
    requires ';' !in n2 && '=' !in n2 && ';' !in v2
    requires StripSpaces(n1) == n1 && StripSpaces(v1) == v1
    requires StripSpaces(n2) == n2 && StripSpaces(v2) == v2
    requires n1 != n2
    ensures IntendedLoad([], SpacedPair(n1, v1, n2, v2)).Ok?
    ensures Values(IntendedLoad([], SpacedPair(n1, v1, n2, v2)).value) == map[n1 := v1, n2 := v2]
  {
    SpacedPairSegments(n1, v1, n2, v2);
    var s0, s1 := n1 + "=" + v1, " " + n2 + "=" + v2;
    IntendedApplyTwo(s0, s1);
    StripLeadingSpace(n2);
    assert TrimmedCookie(s0) == MakeCookie(n1, v1);
    assert TrimmedCookie(s1) == MakeCookie(n2, v2);
    ValuesOfTwo(MakeCookie(n1, v1), MakeCookie(n2, v2));
  }

  lemma StripLeadingSpace(s: string)
    requires StripSpaces(s) == s
    ensures StripSpaces(" " + s) == s
  {
    assert (" " + s)[1..] == s;
  }

  // ---------------------------------------------------------------------
  // The adapter object.

  /** The corrected `load` builds, from segments free of ';', a storable and
      ordered jar of `make_cookie` cookies. */
  lemma {:induction false} IntendedApplyStorable(segs: seq<string>)
    requires forall j :: 0 <= j < |segs| ==> ';' !in segs[j]
    ensures IntendedApply([], segs).Ok? ==>
      var jar := IntendedApply([], segs).value;
      Storable(jar) && SortedNames(jar) && SessionJar(jar)
    decreases |segs|
  {
    if segs != [] {
      var init := segs[..|segs| - 1];
      assert forall j :: 0 <= j < |init| ==> init[j] == segs[j];
      IntendedApplyStorable(init);
      var prev := IntendedApply([], init);
      var seg := segs[|segs| - 1];
      if prev.Ok? && seg != "" && SplitFirst(seg, '=').Some? {
        var p := SplitFirst(seg, '=').value;
        PairStorable(seg);
        StripSpacesKeeps(p.0, ';');
        StripSpacesKeeps(p.0, '=');
        StripSpacesKeeps(p.1, ';');
        var c := MakeCookie(StripSpaces(p.0), StripSpaces(p.1));
        SetCookieMembers(prev.value, c);
        SetCookieSorted(prev.value, c);
      }
    }
  }

  /** With the corrections, end to end: the jar loaded from any string saves
      to a string that loads back to the same jar. */
  lemma IntendedLoadSaveLoad(s: string, now: int)
    ensures IntendedLoad([], s).Ok? ==>
      IntendedLoad([], CookieString(IntendedLoad([], s).value, now)) == IntendedLoad([], s)
  {
    var segs := Split(s, ';');
    IntendedApplyStorable(segs);
    IntendedLoadTrims(segs);
    if IntendedLoad([], s).Ok? {
      var jar := IntendedLoad([], s).value;
      SessionJarFixed(jar, now);
      IntendedLoadRoundTrip(jar, now);
    }
  }

  class RequestAdapter {
    /** Set to `None` by the constructor and never updated. */
    var lastRequestTime: Option<int>
    /** `cookie_jar`, in its iteration order. */
    var cookieJar: seq<Cookie>

    /** The jar is keyed by name alone: every cookie in it has the one
        domain and path `make_cookie` gives, it iterates by name, and no
        name or value holds a character `save` would make ambiguous. */
    ghost predicate Valid()
      reads this
    {
      && SortedNames(cookieJar)
      && Storable(cookieJar)
      && forall c :: c in cookieJar ==> c.domain == COOKIE_DOMAIN && c.path == COOKIE_PATH
    }

    constructor ()
      ensures Valid()
      ensures lastRequestTime == None && cookieJar == []
    {
      lastRequestTime := None;
      cookieJar := [];
    }

    /** `load`: sets one cookie per segment of the account's string and raises
        `ValueError` at the first segment without '=', keeping the cookies
        that the segments before it set. */
    method Load(account: Account) returns (r: Outcome<PyError>)
      requires Valid()
      modifies this
      ensures Valid()
      ensures lastRequestTime == old(lastRequestTime)
      ensures var segs := Split(account.cookie, ';');
              var k := FirstUnparsable(segs);
              && cookieJar == ApplySegments(old(cookieJar), segs[..k])
              && Contents(cookieJar) == Contents(old(cookieJar)) + LoadedCookies(segs[..k])
              && r == (if k == |segs| then Pass else Fail(ValueError))
    {
      var segs := Split(account.cookie, ';');
      var i := 0;
      while i < |segs|
        invariant 0 <= i <= |segs|
        invariant AllUnpack(segs[..i])
        invariant cookieJar == ApplySegments(old(cookieJar), segs[..i])
        invariant Valid()
        invariant lastRequestTime == old(lastRequestTime)
      {
        var parts := SplitFirst(segs[i], '=');
        if parts.None? {
          LoadStopsAt(old(cookieJar), segs, i);
          return Fail(ValueError);
        }
        var (name, value) := parts.value;
        // `name.strip(' ')` and `value.strip(' ')` return new strings that the
        // source discards: the pair is stored as split.
        ApplySegmentsStep(old(cookieJar), segs, i);
        PairStorable(segs[i]);
        SetCookieSorted(cookieJar, MakeCookie(name, value));
        SetCookieMembers(cookieJar, MakeCookie(name, value));
        cookieJar := SetCookie(cookieJar, MakeCookie(name, value));
        i := i + 1;
      }
      LoadStopsAt(old(cookieJar), segs, i);
      return Pass;
    }

    /** `save`: the account with its cookie string rebuilt from the jar; the
        jar itself is left as it was (the method modifies nothing). */
    method Save(account: Account, now: int) returns (saved: Account)
      ensures saved == account.(cookie := CookieString(cookieJar, now))
    {
      var cookieStr := "";
      var i := 0;
      while i < |cookieJar|
        invariant 0 <= i <= |cookieJar|
        invariant cookieStr == CookieString(cookieJar[..i], now)
      {
        var cookie := cookieJar[i];
        assert cookieJar[..i + 1][..i] == cookieJar[..i];
        if IsExpired(cookie, now) {
        } else {
          cookieStr := cookieStr + cookie.name + "=" + cookie.value + ";";
        }
        i := i + 1;
      }
      assert cookieJar[..i] == cookieJar;
      saved := account.(cookie := cookieStr);
    }
  }
}
