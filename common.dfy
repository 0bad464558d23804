/** Values shared by every module: optional values, results with Python
    exceptions, and the handful of Python `str` operations the program uses
    (`find`, `split`, `split(sep, 1)`, negative slicing, `str(int)`). */
module Common {

  datatype Option<+T> = None | Some(value: T)

  datatype Result<+T, +E> = Ok(value: T) | Err(error: E)

  /** The outcome of a call that returns nothing: it either completes or raises. */
  datatype Outcome<+E> = Pass | Fail(error: E)

  /** The exceptions the modelled code raises or lets escape. */
  datatype PyError =
    | ValueError          // unpacking `split('=', 1)` of a segment without '='
    | AttributeError      // `.group(1)` on a failed `re.search`
    | TypeError           // `str + int` in the retry loop's log line
    | TiebaAlreadySigned  // raised by `get_tieba_sign_url`, caught by `sign_tieba`

  /** `t` occurs in `s` at index `i`. */
  predicate StartsAt(s: string, i: nat, t: string) {
    i + |t| <= |s| && s[i..i + |t|] == t
  }

  /** Python `s.find(t, i)`: the lowest index at or after `i` where `t` occurs, or -1. */
  function FindFrom(s: string, t: string, i: nat): (r: int)
    ensures r == -1 || (i <= r && StartsAt(s, r, t))
    ensures r == -1 ==> forall j :: i <= j && StartsAt(s, j, t) ==> false
    ensures r != -1 ==> forall j :: i <= j < r ==> !StartsAt(s, j, t)
    decreases |s| - i
  {
    if i + |t| > |s| then -1
    else if StartsAt(s, i, t) then i
    else FindFrom(s, t, i + 1)
  }

  /** Python `s.find(t)`. */
  function Find(s: string, t: string): (r: int)
    ensures r == -1 <==> forall j :: !StartsAt(s, j, t)
    ensures r != -1 ==> 0 <= r && StartsAt(s, r, t)
  {
    FindFrom(s, t, 0)
  }

  /** The index of the first `c` in `s`, or `|s|` when there is none. */
  function IndexOf(s: string, c: char): (r: nat)
    ensures r <= |s| && c !in s[..r]
    ensures r < |s| ==> s[r] == c
    ensures r == |s| <==> c !in s
  {
    if s == [] then 0
    else if s[0] == c then 0
    else
      var k := IndexOf(s[1..], c);
      assert s[1..][..k] == s[1..k + 1];
      assert s[..k + 1] == [s[0]] + s[1..k + 1];
      1 + k
  }

  /** The pieces joined back with `c` between them (Python `c.join(pieces)`). */
  function Join(pieces: seq<string>, c: char): string
    requires |pieces| >= 1
  {
    if |pieces| == 1 then pieces[0] else pieces[0] + [c] + Join(pieces[1..], c)
  }

  /** Python `s.split(c)`: never empty, and `''.split(c) == ['']`. */
  function Split(s: string, c: char): (r: seq<string>)
    ensures |r| >= 1
    ensures forall i :: 0 <= i < |r| ==> c !in r[i]
    ensures Join(r, c) == s
    decreases |s|
  {
    var i := IndexOf(s, c);
    if i == |s| then [s]
    else
      assert s == s[..i] + [c] + s[i + 1..];
      [s[..i]] + Split(s[i + 1..], c)
  }

  /** Splitting undoes joining whenever no piece holds the separator;
      with `Split`'s own contract this makes `Split` and `Join` inverses. */
  lemma {:induction false} SplitJoin(pieces: seq<string>, c: char)
    requires |pieces| >= 1
    requires forall i :: 0 <= i < |pieces| ==> c !in pieces[i]
    ensures Split(Join(pieces, c), c) == pieces
    decreases |pieces|
  {
    if |pieces| > 1 {
      assert c !in pieces[0];
      SplitCons(pieces[0], c, Join(pieces[1..], c));
      SplitJoin(pieces[1..], c);
    } else {
      assert c !in pieces[0];
    }
  }

  /** A first piece free of `c` splits off on its own. */
  lemma SplitCons(a: string, c: char, rest: string)
    requires c !in a
    ensures Split(a + [c] + rest, c) == [a] + Split(rest, c)
  {
    var s := a + [c] + rest;
    IndexOfPrefix(a, c, rest);
    assert s[..|a|] == a;
    assert s[|a| + 1..] == rest;
  }

  lemma IndexOfPrefix(a: string, c: char, rest: string)
    requires c !in a
    ensures IndexOf(a + [c] + rest, c) == |a|
  {
    var s := a + [c] + rest;
    assert s[|a|] == c;
    assert s[..|a|] == a;
  }

  /** Python `s.split(c, 1)` unpacked into two names: `None` where the
      unpacking raises (no `c` in `s`), otherwise the text before the first
      `c` and everything after it. */
  function SplitFirst(s: string, c: char): (r: Option<(string, string)>)
    ensures r.None? <==> c !in s
    ensures r.Some? ==> c !in r.value.0 && r.value.0 + [c] + r.value.1 == s
  {
    var i := IndexOf(s, c);
    if i == |s| then None
    else
      assert s == s[..i] + [c] + s[i + 1..];
      Some((s[..i], s[i + 1..]))
  }

  /** The first-separator split is the only split whose left part is free of `c`. */
  lemma SplitFirstUnique(a: string, c: char, b: string)
    requires c !in a
    ensures SplitFirst(a + [c] + b, c) == Some((a, b))
  {
    IndexOfPrefix(a, c, b);
    var s := a + [c] + b;
    assert s[..|a|] == a;
    assert s[|a| + 1..] == b;
  }

  /** Python `s[:-k]` for `k >= 1`: everything but the last `k` characters,
      and the empty string when `s` is shorter than `k`. */
  function DropLast(s: string, k: nat): (r: string)
    requires k >= 1
    ensures |r| == if |s| >= k then |s| - k else 0
    ensures r == s[..|r|]
  {
    if |s| >= k then s[..|s| - k] else ""
  }

  /** Python `s.strip(' ')`: the slice of `s` left once its leading and its
      trailing spaces are removed. */
  function StripSpaces(s: string): (r: string)
    ensures |r| > 0 ==> r[0] != ' ' && r[|r| - 1] != ' '
    ensures (|s| == 0 || (s[0] != ' ' && s[|s| - 1] != ' ')) ==> r == s
    ensures exists i, j :: StrippedAt(s, i, j) && r == s[i..j]
    decreases |s|
  {
    if |s| > 0 && s[0] == ' ' then
      var r := StripSpaces(s[1..]);
      ghost var i, j :| StrippedAt(s[1..], i, j) && r == s[1..][i..j];
      StrippedAfterSpace(s, i, j);
      r
    else if |s| > 0 && s[|s| - 1] == ' ' then
      var r := StripSpaces(s[..|s| - 1]);
      ghost var i, j :| StrippedAt(s[..|s| - 1], i, j) && r == s[..|s| - 1][i..j];
      StrippedBeforeSpace(s, i, j);
      r
    else
      assert StrippedAt(s, 0, |s|);
      s
  }

  /** `strip(' ')` adds no character: one absent from `s` is absent from the result. */
  lemma StripSpacesKeeps(s: string, ch: char)
    requires ch !in s
    ensures ch !in StripSpaces(s)
  {
    var r := StripSpaces(s);
    var i, j :| StrippedAt(s, i, j) && r == s[i..j];
    forall k | 0 <= k < |r| ensures r[k] != ch {
      assert r[k] == s[i + k];
    }
  }

  /** `s[i..j]` is `s` without a run of spaces before `i` and after `j`. */
  predicate StrippedAt(s: string, i: int, j: int) {
    && 0 <= i <= j <= |s|
    && (forall k :: 0 <= k < i ==> s[k] == ' ')
    && (forall k :: j <= k < |s| ==> s[k] == ' ')
  }

  lemma StrippedAfterSpace(s: string, i: int, j: int)
    requires |s| > 0 && s[0] == ' ' && StrippedAt(s[1..], i, j)
    ensures StrippedAt(s, i + 1, j + 1) && s[1..][i..j] == s[i + 1..j + 1]
  {
    forall k | 0 < k < i + 1 ensures s[k] == ' ' {
      assert s[k] == s[1..][k - 1];
    }
    forall k | j + 1 <= k < |s| ensures s[k] == ' ' {
      assert s[k] == s[1..][k - 1];
    }
  }

  lemma StrippedBeforeSpace(s: string, i: int, j: int)
    requires |s| > 0 && s[|s| - 1] == ' ' && StrippedAt(s[..|s| - 1], i, j)
    ensures StrippedAt(s, i, j) && s[..|s| - 1][i..j] == s[i..j]
  {
    forall k | 0 <= k < i ensures s[k] == ' ' {
      assert s[k] == s[..|s| - 1][k];
    }
    forall k | j <= k < |s| - 1 ensures s[k] == ' ' {
      assert s[k] == s[..|s| - 1][k];
    }
  }

  predicate IsDigit(c: char) { '0' <= c <= '9' }

  /** The value of a string of decimal digits. */
  function DecimalValue(s: string): nat
    requires forall i :: 0 <= i < |s| ==> IsDigit(s[i])
  {
    if s == [] then 0
    else
      assert IsDigit(s[|s| - 1]);
      10 * DecimalValue(s[..|s| - 1]) + (s[|s| - 1] as int - '0' as int)
  }

  /** Python `str(n)` for a non-negative integer. */
  function NatToString(n: nat): (r: string)
    ensures |r| >= 1 && forall i :: 0 <= i < |r| ==> IsDigit(r[i])
    ensures DecimalValue(r) == n
    ensures |r| > 1 ==> r[0] != '0'
  {
    var d := ['0' + (n % 10) as char];
    if n < 10 then d
    else
      var r := NatToString(n / 10) + d;
      assert r[..|r| - 1] == NatToString(n / 10);
      r
  }

  /** `str` is injective on page numbers. */
  lemma NatToStringInjective(m: nat, n: nat)
    requires NatToString(m) == NatToString(n)
    ensures m == n
  {
  }
}
