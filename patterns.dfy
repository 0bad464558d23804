/** The three regular expressions of `src/tieba_operator.py`, each written
    out as the matcher Python's `re` module runs for it. A pattern "at" a
    string means a match that starts at the string's first character; a
    match at position `p` of `s` is a match at `s[p..]`. */
module Patterns {
  import opened Common

  // ---------------------------------------------------------------------
  // `title="(.+?)">\1</a></td>`, applied with `re.findall`.

  const TITLE_OPEN := "title=\""
  const TITLE_MID := "\">"
  const TITLE_CLOSE := "</a></td>"

  /** The row of the favourites page that names one forum. */
  function TitleRow(name: string): string {
    TITLE_OPEN + name + TITLE_MID + name + TITLE_CLOSE
  }

  /** The length of a match whose group has `len` characters. */
  function TitleMatchLength(len: nat): nat {
    |TITLE_OPEN| + len + |TITLE_MID| + len + |TITLE_CLOSE|
  }

  /** The pattern matches at the start of `t` with a group of `len`
      characters: `.` matches anything but a newline, and `\1` repeats the
      group. */
  predicate TitleAt(t: string, len: nat) {
    var g := |TITLE_OPEN|;
    && len >= 1
    && StartsAt(t, 0, TITLE_OPEN)
    && g + len <= |t|
    && '\n' !in t[g..g + len]
    && StartsAt(t, g + len, TITLE_MID)
    && StartsAt(t, g + len + |TITLE_MID|, t[g..g + len])
    && StartsAt(t, g + 2 * len + |TITLE_MID|, TITLE_CLOSE)
  }

  /** The lazy `.+?`: the shortest group of at least `len` characters that
      lets the rest of the pattern match, trying longer groups only while
      `.` can still consume a character. */
  function TitleLength(t: string, len: nat): (r: Option<nat>)
    requires 1 <= len && |TITLE_OPEN| + len - 1 <= |t|
    requires '\n' !in t[|TITLE_OPEN|..|TITLE_OPEN| + len - 1]
    ensures r.Some? ==> len <= r.value && TitleAt(t, r.value)
    ensures r.Some? ==> forall k :: len <= k < r.value ==> !TitleAt(t, k)
    ensures r.None? ==> forall k :: len <= k ==> !TitleAt(t, k)
    decreases |t| - len
  {
    var g := |TITLE_OPEN|;
    if g + len > |t| then None
    else if t[g + len - 1] == '\n' then
      assert forall k | len <= k :: !TitleAt(t, k) by {
        forall k | len <= k && g + k <= |t| ensures !TitleAt(t, k) {
          assert t[g..g + k][len - 1] == '\n';
        }
      }
      None
    else if TitleAt(t, len) then Some(len)
    else
      assert t[g..g + len] == t[g..g + len - 1] + [t[g + len - 1]];
      TitleLength(t, len + 1)
  }

  /** What the regular expression engine finds at the start of `t`: the
      group length of the match, or `None`. */
  function TitleMatch(t: string): (r: Option<nat>)
    ensures r.Some? ==> TitleAt(t, r.value) && forall k: nat :: k < r.value ==> !TitleAt(t, k)
    ensures r.None? ==> forall k :: !TitleAt(t, k)
  {
    if StartsAt(t, 0, TITLE_OPEN) then TitleLength(t, 1) else None
  }

  /** `re.findall`: the groups of the non-overlapping matches, scanning left
      to right and resuming where each match ends. */
  function FindTitles(s: string): (r: seq<string>)
    ensures forall j :: 0 <= j < |r| ==> r[j] != "" && '\n' !in r[j]
    decreases |s|
  {
    if s == [] then []
    else
      match TitleMatch(s)
      case None => FindTitles(s[1..])
      case Some(len) =>
        var g := |TITLE_OPEN|;
        [s[g..g + len]] + FindTitles(s[TitleMatchLength(len)..])
  }

  /** A match's text is the row of its group. */
  lemma TitleAtRow(t: string, len: nat)
    requires TitleAt(t, len)
    ensures TitleMatchLength(len) <= |t|
    ensures t[..TitleMatchLength(len)] == TitleRow(t[|TITLE_OPEN|..|TITLE_OPEN| + len])
  {
    var g := |TITLE_OPEN|;
    var n := t[g..g + len];
    var m := TitleMatchLength(len);
    assert t[..m] == t[..g] + t[g..g + len] + t[g + len..g + len + 2] + t[g + len + 2..g + 2 * len + 2]
      + t[g + 2 * len + 2..m];
  }

  /** `t` occurs somewhere in `s` (Python `t in s`). */
  predicate Occurs(s: string, t: string) {
    exists p: nat :: p <= |s| && StartsAt(s, p, t)
  }

  lemma OccursInSuffix(s: string, k: nat, t: string)
    requires k <= |s| && Occurs(s[k..], t)
    ensures Occurs(s, t)
  {
    var p: nat :| p <= |s[k..]| && StartsAt(s[k..], p, t);
    assert s[k + p..k + p + |t|] == s[k..][p..p + |t|];
    assert StartsAt(s, k + p, t);
  }

  /** The row of every one of `names` occurs in `s`. */
  predicate RowsOccur(s: string, names: seq<string>) {
    forall j :: 0 <= j < |names| ==> Occurs(s, TitleRow(names[j]))
  }

  lemma RowsOccurInSuffix(s: string, k: nat, names: seq<string>)
    requires k <= |s| && RowsOccur(s[k..], names)
    ensures RowsOccur(s, names)
  {
    forall j | 0 <= j < |names| ensures Occurs(s, TitleRow(names[j])) {
      OccursInSuffix(s, k, TitleRow(names[j]));
    }
  }

  lemma RowsOccurCons(s: string, n: string, names: seq<string>)
    requires Occurs(s, TitleRow(n)) && RowsOccur(s, names)
    ensures RowsOccur(s, [n] + names)
  {
    forall j | 0 <= j < |[n] + names| ensures Occurs(s, TitleRow(([n] + names)[j])) {
      if j > 0 {
        assert ([n] + names)[j] == names[j - 1];
      }
    }
  }

  /** Every name `findall` returns has its whole row somewhere in the page. */
  lemma {:induction false} FindTitlesOccur(s: string)
    ensures RowsOccur(s, FindTitles(s))
    decreases |s|
  {
    if s != [] {
      match TitleMatch(s)
      case None =>
        FindTitlesOccur(s[1..]);
        RowsOccurInSuffix(s, 1, FindTitles(s[1..]));
      case Some(len) =>
        var e := TitleMatchLength(len);
        TitleAtRow(s, len);
        var n := s[|TITLE_OPEN|..|TITLE_OPEN| + len];
        FindTitlesOccur(s[e..]);
        RowsOccurInSuffix(s, e, FindTitles(s[e..]));
        assert StartsAt(s, 0, TitleRow(n));
        RowsOccurCons(s, n, FindTitles(s[e..]));
    }
  }

  /** `findall` returns nothing exactly when the pattern matches nowhere. */
  lemma {:induction false} FindTitlesEmpty(s: string)
    ensures FindTitles(s) == [] <==> forall p, len :: 0 <= p <= |s| ==> !TitleAt(s[p..], len)
    decreases |s|
  {
    if s != [] {
      FindTitlesEmpty(s[1..]);
      if TitleMatch(s).None? {
        forall p | 1 <= p <= |s| ensures s[p..] == s[1..][p - 1..] {
        }
        assert s[0..] == s;
      } else {
        assert s[0..] == s;
      }
    }
  }

  /** A favourites page listing `names`, in order, followed by `tail`. */
  function Rows(names: seq<string>, tail: string): string {
    if names == [] then tail else TitleRow(names[0]) + Rows(names[1..], tail)
  }

  /** A name that can be listed and read back: not empty, no quote, no newline. */
  predicate PlainName(n: string) {
    n != "" && '"' !in n && '\n' !in n
  }

  lemma TitleMatchOfRow(n: string, rest: string)
    requires PlainName(n)
    ensures TitleMatch(TitleRow(n) + rest) == Some(|n|)
  {
    var t := TitleRow(n) + rest;
    TitleAtOfRow(n, rest);
    var g := |TITLE_OPEN|;
    forall k | 1 <= k < |n| ensures !TitleAt(t, k) {
      assert t[g + k] == n[k];
    }
  }

  lemma TitleAtOfRow(n: string, rest: string)
    requires n != "" && '\n' !in n
    ensures TitleAt(TitleRow(n) + rest, |n|)
  {
    var t := TitleRow(n) + rest;
    var g := |TITLE_OPEN|;
    assert t[..g] == TITLE_OPEN;
    assert t[g..g + |n|] == n;
    assert t[g + |n|..g + |n| + 2] == TITLE_MID;
    assert t[g + |n| + 2..g + 2 * |n| + 2] == n;
    assert t[g + 2 * |n| + 2..g + 2 * |n| + 11] == TITLE_CLOSE;
  }

  /** Reading the page back: `findall` over the rows of `names` followed by
      any `tail` returns `names` and then what it finds in the tail, as long
      as no name holds a quote or a newline. */
  lemma {:induction false} FindTitlesRowsThen(names: seq<string>, tail: string)
    requires forall j :: 0 <= j < |names| ==> PlainName(names[j])
    ensures FindTitles(Rows(names, tail)) == names + FindTitles(tail)
    decreases |names|
  {
    if names != [] {
      PlainTail(names);
      FindTitlesRowsThen(names[1..], tail);
      FindTitlesRowsStep(names, tail);
    }
  }

  lemma PlainTail(names: seq<string>)
    requires names != [] && forall j :: 0 <= j < |names| ==> PlainName(names[j])
    ensures forall j :: 0 <= j < |names[1..]| ==> PlainName(names[1..][j])
  {
  }

  lemma FindTitlesRowsStep(names: seq<string>, tail: string)
    requires names != [] && PlainName(names[0])
    requires FindTitles(Rows(names[1..], tail)) == names[1..] + FindTitles(tail)
    ensures FindTitles(Rows(names, tail)) == names + FindTitles(tail)
  {
    var rest := Rows(names[1..], tail);
    assert Rows(names, tail) == TitleRow(names[0]) + rest;
    FindTitlesRow(names[0], rest);
    ConsAppend(names, FindTitles(tail));
  }

  lemma ConsAppend<T>(xs: seq<T>, ys: seq<T>)
    requires xs != []
    ensures [xs[0]] + (xs[1..] + ys) == xs + ys
  {
    assert xs == [xs[0]] + xs[1..];
  }

  lemma FindTitlesRow(n: string, rest: string)
    requires PlainName(n)
    ensures FindTitles(TitleRow(n) + rest) == [n] + FindTitles(rest)
  {
    var s := TitleRow(n) + rest;
    TitleMatchOfRow(n, rest);
    assert |TitleRow(n)| == TitleMatchLength(|n|);
    assert s[TitleMatchLength(|n|)..] == rest;
    assert s[|TITLE_OPEN|..|TITLE_OPEN| + |n|] == n;
  }

  /** The fixed markup is ASCII. */
  lemma MarkupWithout(c: char)
    requires c as int >= 0x80
    ensures c !in TITLE_OPEN && c !in TITLE_MID && c !in TITLE_CLOSE
  {
  }

  /** A character outside the names and the fixed markup is not in the rows. */
  lemma {:induction false} RowsWithout(names: seq<string>, tail: string, c: char)
    requires forall j :: 0 <= j < |names| ==> c !in names[j]
    requires c !in TITLE_OPEN && c !in TITLE_MID && c !in TITLE_CLOSE && c !in tail
    ensures c !in Rows(names, tail)
    decreases |names|
  {
    if names != [] {
      assert c !in names[0];
      RowsWithout(names[1..], tail, c);
    }
  }

  // ---------------------------------------------------------------------
  // `"([^"]+tab=favorite)"`, applied with `re.search`.

  const FAVORITE_TAIL := "tab=favorite"

  /** The quote that ends a quoted string starting at `t[0]`: `|t|` when there is none. */
  function ClosingQuote(t: string): (q: nat)
    requires |t| > 0
    ensures 1 <= q <= |t| && '"' !in t[1..q]
    ensures q < |t| ==> t[q] == '"'
  {
    assert t[1..][..IndexOf(t[1..], '"')] == t[1..1 + IndexOf(t[1..], '"')];
    1 + IndexOf(t[1..], '"')
  }

  /** The pattern matches at the start of `t`. Since neither `[^"]` nor
      `tab=favorite` consumes a quote, the closing quote of the match is the
      first quote after the opening one. */
  predicate FavoriteAt(t: string) {
    && |t| > 0
    && t[0] == '"'
    && var q := ClosingQuote(t);
    && q < |t|
    && q - 1 > |FAVORITE_TAIL|
    && t[q - |FAVORITE_TAIL|..q] == FAVORITE_TAIL
  }

  /** The pattern read literally, with `m >= 1` characters for `[^"]+`: a
      quote, `m` characters other than a quote, `tab=favorite`, and a quote. */
  predicate FavoriteSplitAt(t: string, m: nat) {
    var n := |FAVORITE_TAIL|;
    && 1 <= m
    && 1 + m + n < |t|
    && t[0] == '"'
    && '"' !in t[1..1 + m]
    && t[1 + m..1 + m + n] == FAVORITE_TAIL
    && t[1 + m + n] == '"'
  }

  /** `FavoriteAt` agrees with the pattern read literally, and the literal
      reading leaves the greedy `[^"]+` a single choice. */
  lemma FavoriteAtMeansPattern(t: string)
    ensures FavoriteAt(t) <==> exists m: nat :: FavoriteSplitAt(t, m)
  {
    var n := |FAVORITE_TAIL|;
    if FavoriteAt(t) {
      var q := ClosingQuote(t);
      var m := q - 1 - n;
      assert t[1..1 + m] == t[1..q][..m];
      assert FavoriteSplitAt(t, m);
    }
    if m: nat :| FavoriteSplitAt(t, m) {
      FavoriteSplitUnique(t, m);
    }
  }

  lemma FavoriteSplitUnique(t: string, m: nat)
    requires FavoriteSplitAt(t, m)
    ensures FavoriteAt(t) && ClosingQuote(t) == 1 + m + |FAVORITE_TAIL|
  {
    var n := |FAVORITE_TAIL|;
    var q := ClosingQuote(t);
    assert '"' !in FAVORITE_TAIL;
    assert t[1..1 + m + n] == t[1..1 + m] + t[1 + m..1 + m + n];
    assert t[1..][m + n] == '"';
    assert t[1..][..m + n] == t[1..1 + m + n];
  }

  /** `.group(1)` of a match at the start of `t`: the text between the quotes. */
  function FavoriteGroup(t: string): (link: string)
    requires FavoriteAt(t)
    ensures '"' !in link && |link| > |FAVORITE_TAIL| && |link| + 2 <= |t|
    ensures link[|link| - |FAVORITE_TAIL|..] == FAVORITE_TAIL
    ensures t[..|link| + 2] == "\"" + link + "\""
  {
    var q := ClosingQuote(t);
    assert t[..q + 1] == [t[0]] + t[1..q] + [t[q]];
    t[1..q]
  }

  /** `re.search`: the leftmost position where the pattern matches. */
  function SearchFavorite(s: string): (r: Option<nat>)
    ensures LeftmostFavorite(s, r)
    decreases |s|
  {
    if s == [] then None
    else if FavoriteAt(s) then
      assert s[0..] == s;
      Some(0)
    else
      var q := SearchFavorite(s[1..]);
      var r := if q.Some? then Some(q.value + 1) else None;
      LeftmostFavoriteShift(s, q, r);
      r
  }

  /** `r` is where `re.search` finds the pattern in `s`: the leftmost match, or none at all. */
  predicate LeftmostFavorite(s: string, r: Option<nat>) {
    && (r.Some? ==> r.value < |s| && FavoriteAt(s[r.value..]))
    && (r.Some? ==> forall p :: 0 <= p < r.value ==> !FavoriteAt(s[p..]))
    && (r.None? ==> forall p :: 0 <= p <= |s| ==> !FavoriteAt(s[p..]))
  }

  lemma LeftmostFavoriteShift(s: string, q: Option<nat>, r: Option<nat>)
    requires s != [] && !FavoriteAt(s) && LeftmostFavorite(s[1..], q)
    requires r == if q.Some? then Some(q.value + 1) else None
    ensures LeftmostFavorite(s, r)
  {
    assert s[0..] == s;
    var before := if q.Some? then q.value + 1 else |s| + 1;
    forall p | 0 <= p < before ensures !FavoriteAt(s[p..]) {
      if p > 0 {
        assert s[p..] == s[1..][p - 1..];
      }
    }
    if q.Some? {
      assert s[q.value + 1..] == s[1..][q.value..];
    }
  }

  /** A quoted favourites link is a match at its opening quote, and the group is the link. */
  lemma FavoriteAtLink(link: string, rest: string)
    requires '"' !in link
    requires |link| > |FAVORITE_TAIL| && link[|link| - |FAVORITE_TAIL|..] == FAVORITE_TAIL
    ensures FavoriteAt("\"" + link + "\"" + rest)
    ensures FavoriteGroup("\"" + link + "\"" + rest) == link
  {
    var t := "\"" + link + "\"" + rest;
    assert t[1..] == link + ['"'] + rest;
    IndexOfPrefix(link, '"', rest);
    var q := ClosingQuote(t);
    assert q == 1 + |link|;
    assert t[q - |FAVORITE_TAIL|..q] == link[|link| - |FAVORITE_TAIL|..];
    assert t[1..q] == link;
  }

  /** A favourites link placed after text without quotes is the one found. */
  lemma SearchFavoritePlaced(prefix: string, link: string, rest: string)
    requires '"' !in prefix && '"' !in link
    requires |link| > |FAVORITE_TAIL| && link[|link| - |FAVORITE_TAIL|..] == FAVORITE_TAIL
    ensures var s := prefix + "\"" + link + "\"" + rest;
            var r := SearchFavorite(s);
            r == Some(|prefix|) && FavoriteGroup(s[|prefix|..]) == link
  {
    var t := "\"" + link + "\"" + rest;
    var s := prefix + t;
    assert s == prefix + "\"" + link + "\"" + rest;
    assert s[|prefix|..] == t;
    FavoriteAtLink(link, rest);
    forall p | 0 <= p < |prefix| ensures !FavoriteAt(s[p..]) {
      assert s[p..][0] == prefix[p];
    }
  }

  // ---------------------------------------------------------------------
  // `mo/.+?">签到`, applied with `re.search`; the whole match is used.

  const SIGN_HEAD := "mo/"
  const SIGN_TAIL := "\">签到"

  /** The pattern matches at the start of `t`, the lazy `.+?` taking `len` characters. */
  predicate SignAt(t: string, len: nat) {
    var g := |SIGN_HEAD|;
    && len >= 1
    && StartsAt(t, 0, SIGN_HEAD)
    && g + len <= |t|
    && '\n' !in t[g..g + len]
    && StartsAt(t, g + len, SIGN_TAIL)
  }

  /** The lazy `.+?`: the shortest stretch of at least `len` characters after
      which `">签到` follows. */
  function SignLength(t: string, len: nat): (r: Option<nat>)
    requires 1 <= len && |SIGN_HEAD| + len - 1 <= |t|
    requires '\n' !in t[|SIGN_HEAD|..|SIGN_HEAD| + len - 1]
    ensures r.Some? ==> len <= r.value && SignAt(t, r.value)
    ensures r.Some? ==> forall k :: len <= k < r.value ==> !SignAt(t, k)
    ensures r.None? ==> forall k :: len <= k ==> !SignAt(t, k)
    decreases |t| - len
  {
    var g := |SIGN_HEAD|;
    if g + len > |t| then None
    else if t[g + len - 1] == '\n' then
      assert forall k | len <= k :: !SignAt(t, k) by {
        forall k | len <= k && g + k <= |t| ensures !SignAt(t, k) {
          assert t[g..g + k][len - 1] == '\n';
        }
      }
      None
    else if SignAt(t, len) then Some(len)
    else
      assert t[g..g + len] == t[g..g + len - 1] + [t[g + len - 1]];
      SignLength(t, len + 1)
  }

  function SignMatch(t: string): (r: Option<nat>)
    ensures r.Some? ==> SignAt(t, r.value) && forall k: nat :: k < r.value ==> !SignAt(t, k)
    ensures r.None? ==> forall k :: !SignAt(t, k)
  {
    if StartsAt(t, 0, SIGN_HEAD) then SignLength(t, 1) else None
  }

  /** `re.search`: the leftmost position where the pattern matches, with the
      length the lazy `.+?` settles on there. */
  function SearchSign(s: string): (r: Option<(nat, nat)>)
    ensures LeftmostSign(s, r)
    decreases |s|
  {
    if s == [] then None
    else if SignMatch(s).Some? then
      assert s[0..] == s;
      Some((0, SignMatch(s).value))
    else
      var q := SearchSign(s[1..]);
      var r := if q.Some? then Some((q.value.0 + 1, q.value.1)) else None;
      LeftmostSignShift(s, q, r);
      r
  }

  /** `r` is the leftmost match in `s` with its length, or there is no match. */
  predicate LeftmostSign(s: string, r: Option<(nat, nat)>) {
    && (r.Some? ==> r.value.0 < |s| && SignMatch(s[r.value.0..]) == Some(r.value.1))
    && (r.Some? ==> forall p :: 0 <= p < r.value.0 ==> SignMatch(s[p..]).None?)
    && (r.None? ==> forall p :: 0 <= p <= |s| ==> SignMatch(s[p..]).None?)
  }

  lemma LeftmostSignShift(s: string, q: Option<(nat, nat)>, r: Option<(nat, nat)>)
    requires s != [] && SignMatch(s).None? && LeftmostSign(s[1..], q)
    requires r == if q.Some? then Some((q.value.0 + 1, q.value.1)) else None
    ensures LeftmostSign(s, r)
  {
    assert s[0..] == s;
    var before := if q.Some? then q.value.0 + 1 else |s| + 1;
    forall p | 0 <= p < before ensures SignMatch(s[p..]).None? {
      if p > 0 {
        assert s[p..] == s[1..][p - 1..];
      }
    }
    if q.Some? {
      assert s[q.value.0 + 1..] == s[1..][q.value.0..];
    }
  }

  /** `.group()`: the text of the match found at `p`. */
  function SignMatchText(s: string, p: nat, len: nat): (m: string)
    requires p <= |s| && SignAt(s[p..], len)
    ensures m == SIGN_HEAD + s[p + |SIGN_HEAD|..p + |SIGN_HEAD| + len] + SIGN_TAIL
  {
    var t := s[p..];
    var g := |SIGN_HEAD|;
    assert t[..g + len + |SIGN_TAIL|] == t[..g] + t[g..g + len] + t[g + len..g + len + |SIGN_TAIL|];
    assert t[g..g + len] == s[p + g..p + g + len];
    t[..g + len + |SIGN_TAIL|]
  }

  /** A sign link `mo/<path>">签到` placed after text that holds no `mo/`
      is the one found, and its path is all of `path`. */
  lemma SearchSignPlaced(prefix: string, path: string, rest: string)
    requires forall j :: !StartsAt(prefix, j, SIGN_HEAD)
    requires path != "" && '"' !in path && '\n' !in path
    ensures var s := prefix + SIGN_HEAD + path + SIGN_TAIL + rest;
            SearchSign(s) == Some((|prefix|, |path|))
            && SignMatchText(s, |prefix|, |path|) == SIGN_HEAD + path + SIGN_TAIL
  {
    var s := prefix + SIGN_HEAD + path + SIGN_TAIL + rest;
    var t := SIGN_HEAD + path + SIGN_TAIL + rest;
    assert s == prefix + t;
    assert s[|prefix|..] == t;
    SignMatchPlaced(path, rest);
    forall p | 0 <= p < |prefix| ensures SignMatch(s[p..]).None? {
      NoHeadBeforePlaced(prefix, t, p);
    }
    LeftmostSignUnique(s, SearchSign(s), Some((|prefix|, |path|)));
    assert s[|prefix| + |SIGN_HEAD|..|prefix| + |SIGN_HEAD| + |path|] == t[|SIGN_HEAD|..|SIGN_HEAD| + |path|];
  }

  /** The lazy `.+?` stops at the first `">签到`, which here ends the path. */
  lemma SignMatchPlaced(path: string, rest: string)
    requires path != "" && '"' !in path && '\n' !in path
    ensures var t := SIGN_HEAD + path + SIGN_TAIL + rest;
            SignMatch(t) == Some(|path|) && t[|SIGN_HEAD|..|SIGN_HEAD| + |path|] == path
  {
    var t := SIGN_HEAD + path + SIGN_TAIL + rest;
    SignAtPlaced(path, rest);
    var g := |SIGN_HEAD|;
    forall k | 1 <= k < |path| ensures !SignAt(t, k) {
      assert t[g + k] == path[k];
    }
  }

  lemma SignAtPlaced(path: string, rest: string)
    requires path != "" && '\n' !in path
    ensures var t := SIGN_HEAD + path + SIGN_TAIL + rest;
            SignAt(t, |path|) && t[|SIGN_HEAD|..|SIGN_HEAD| + |path|] == path
  {
    var t := SIGN_HEAD + path + SIGN_TAIL + rest;
    var g := |SIGN_HEAD|;
    assert t[..g] == SIGN_HEAD;
    assert t[g..g + |path|] == path;
    assert t[g + |path|..g + |path| + |SIGN_TAIL|] == SIGN_TAIL;
  }

  /** There is only one leftmost match. */
  lemma LeftmostSignUnique(s: string, r1: Option<(nat, nat)>, r2: Option<(nat, nat)>)
    requires LeftmostSign(s, r1) && LeftmostSign(s, r2)
    ensures r1 == r2
  {
    if r1.Some? {
      assert SignMatch(s[r1.value.0..]).Some?;
    }
    if r2.Some? {
      assert SignMatch(s[r2.value.0..]).Some?;
    }
  }

  /** `mo/` cannot start inside `prefix` when it does not occur in `prefix`
      and `mo/` itself follows. */
  lemma NoHeadBeforePlaced(prefix: string, t: string, p: nat)
    requires forall j :: !StartsAt(prefix, j, SIGN_HEAD)
    requires StartsAt(t, 0, SIGN_HEAD)
    requires p < |prefix|
    ensures !StartsAt((prefix + t)[p..], 0, SIGN_HEAD)
  {
    var s := prefix + t;
    if p + 3 <= |prefix| {
      assert s[p..p + 3] == prefix[p..p + 3];
      assert !StartsAt(prefix, p, SIGN_HEAD);
    } else if p + 2 == |prefix| {
      assert s[p + 2] == t[0];
    } else {
      assert s[p + 1] == t[0];
    }
  }
}
