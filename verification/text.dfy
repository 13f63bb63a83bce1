/**
 * The JavaScript string operations the compiler relies on, over `string`
 * (a `seq<char>`): searching, `includes`, `substring`, `slice`, `trim`,
 * `Array.prototype.join`, and the inverse of `join` for a one-character
 * separator.
 */
module Text {

  datatype Option<T> = None | Some(value: T)

  /** `pat` occurs in `s` starting at index `i`. */
  predicate At(s: string, pat: string, i: int)
  {
    0 <= i && i + |pat| <= |s| && s[i..i + |pat|] == pat
  }

  /** JavaScript `s.includes(pat)`. */
  predicate Contains(s: string, pat: string)
  {
    exists i | 0 <= i <= |s| :: At(s, pat, i)
  }

  /** No character of `s[lo..hi]` is `c`. */
  predicate Free(s: string, c: char, lo: int, hi: int)
  {
    forall k :: lo <= k < hi && 0 <= k < |s| ==> s[k] != c
  }

  /** The least index `i >= from` at which `pat` occurs in `s` (`s.indexOf(pat, from)`). */
  function FindFirst(s: string, pat: string, from: nat): (r: Option<nat>)
    ensures r.Some? ==> from <= r.value && At(s, pat, r.value)
    ensures r.Some? ==> forall j :: from <= j < r.value ==> !At(s, pat, j)
    ensures r.None? ==> forall j :: from <= j ==> !At(s, pat, j)
    decreases |s| - from
  {
    if from + |pat| > |s| then None
    else if At(s, pat, from) then Some(from)
    else FindFirst(s, pat, from + 1)
  }

  /** The greatest index `i` with `lo <= i <= hi` at which `pat` occurs in `s`. */
  function FindLast(s: string, pat: string, lo: int, hi: int): (r: Option<nat>)
    ensures r.Some? ==> lo <= r.value <= hi && At(s, pat, r.value)
    ensures r.Some? ==> forall j :: r.value < j <= hi ==> !At(s, pat, j)
    ensures r.None? ==> forall j :: lo <= j <= hi ==> !At(s, pat, j)
    decreases hi - lo
  {
    if hi < lo || hi < 0 then None
    else if hi + |pat| > |s| then FindLast(s, pat, lo, |s| - |pat|)
    else if At(s, pat, hi) then Some(hi)
    else FindLast(s, pat, lo, hi - 1)
  }

  /** The least index `i >= from` holding the character `c`. */
  function FirstChar(s: string, c: char, from: nat): (r: Option<nat>)
    ensures r.Some? ==> from <= r.value < |s| && s[r.value] == c && Free(s, c, from, r.value)
    ensures r.None? ==> Free(s, c, from, |s|)
    decreases |s| - from
  {
    if from >= |s| then None
    else if s[from] == c then Some(from)
    else FirstChar(s, c, from + 1)
  }

  /** The greatest index `i` with `lo <= i <= hi` holding the character `c`. */
  function LastChar(s: string, c: char, lo: int, hi: int): (r: Option<nat>)
    ensures r.Some? ==> lo <= r.value <= hi && r.value < |s| && s[r.value] == c
    ensures r.Some? ==> Free(s, c, r.value + 1, hi + 1)
    ensures r.None? ==> Free(s, c, lo, hi + 1)
    decreases hi - lo
  {
    if hi < lo || hi < 0 then None
    else if hi >= |s| then LastChar(s, c, lo, |s| - 1)
    else if s[hi] == c then Some(hi)
    else LastChar(s, c, lo, hi - 1)
  }

  /** An occurrence of a one-character pattern is that character. */
  lemma AtChar(s: string, c: char, i: int)
    ensures At(s, [c], i) <==> 0 <= i < |s| && s[i] == c
  {
    if 0 <= i < |s| {
      assert s[i..i + 1] == [s[i]];
    }
  }

  /** An occurrence inside the left operand of a concatenation. */
  lemma AtLeft(a: string, b: string, pat: string, i: int)
    requires 0 <= i && i + |pat| <= |a|
    ensures At(a + b, pat, i) <==> At(a, pat, i)
  {
    assert (a + b)[i..i + |pat|] == a[i..i + |pat|];
  }

  /** An occurrence inside the right operand of a concatenation. */
  lemma AtRight(a: string, b: string, pat: string, i: int)
    requires 0 <= i
    ensures At(a + b, pat, |a| + i) <==> At(b, pat, i)
  {
    if 0 <= i && i + |pat| <= |b| {
      assert (a + b)[|a| + i..|a| + i + |pat|] == b[i..i + |pat|];
    }
  }

  /** Every occurrence of `pat` starts with the first character of `pat`. */
  lemma AtStartsWith(s: string, pat: string, i: int)
    requires |pat| > 0 && At(s, pat, i)
    ensures s[i] == pat[0]
  {
    assert s[i..i + |pat|][0] == s[i];
  }

  /** Every occurrence of `pat` carries its `k`-th character at offset `k`. */
  lemma AtChars(s: string, pat: string, i: int, k: int)
    requires At(s, pat, i) && 0 <= k < |pat|
    ensures s[i + k] == pat[k]
  {
    assert s[i..i + |pat|][k] == s[i + k];
  }

  /** A text shorter than a pattern does not contain it. */
  lemma Shorter(s: string, pat: string)
    requires |s| < |pat|
    ensures !Contains(s, pat)
  {
  }

  /** A pattern does not occur where one of its characters is missing. */
  lemma NotAt(s: string, pat: string, i: int, k: int)
    requires 0 <= i && 0 <= k < |pat| && i + k < |s| && s[i + k] != pat[k]
    ensures !At(s, pat, i)
  {
    if i + |pat| <= |s| {
      assert s[i..i + |pat|][k] == s[i + k];
    }
  }

  /** A slice of `s` equal to a text free of `c` leaves `s` free of `c` there. */
  lemma FreeSlice(s: string, c: char, lo: int, hi: int, piece: string)
    requires 0 <= lo <= hi <= |s| && s[lo..hi] == piece && Free(piece, c, 0, |piece|)
    ensures Free(s, c, lo, hi)
  {
    forall k | lo <= k < hi
      ensures s[k] != c
    {
      assert s[k] == piece[k - lo];
    }
  }

  /** An occurrence of `pat` inside a slice of `s` is an occurrence in that slice. */
  lemma AtSlice(s: string, pat: string, lo: int, hi: int, piece: string, i: int)
    requires 0 <= lo <= i && i + |pat| <= hi <= |s| && s[lo..hi] == piece
    requires At(s, pat, i)
    ensures At(piece, pat, i - lo)
  {
    forall k | 0 <= k < |pat|
      ensures piece[i - lo + k] == pat[k]
    {
      AtChars(s, pat, i, k);
    }
    assert piece[i - lo..i - lo + |pat|] == pat;
  }

  // ---------------------------------------------------------------------
  // substring, slice and trim

  /** The characters `String.prototype.trim` removes: WhiteSpace and LineTerminator of ECMA-262. */
  predicate IsJsSpace(c: char)
  {
    c == '\t' || c == '\U{B}' || c == '\U{C}' || c == ' ' || c == '\U{A0}' || c == '\U{FEFF}'
    || c == '\n' || c == '\r' || c == '\U{2028}' || c == '\U{2029}'
    || c == '\U{1680}' || ('\U{2000}' <= c <= '\U{200A}')
    || c == '\U{202F}' || c == '\U{205F}' || c == '\U{3000}'
  }

  predicate AllSpace(s: string)
  {
    forall k | 0 <= k < |s| :: IsJsSpace(s[k])
  }

  /** `s.substring(start)` for a non-negative `start`: the suffix from `start`, clamped to the length. */
  function Substring(s: string, start: nat): (r: string)
    ensures start <= |s| ==> s == s[..start] + r
    ensures start >= |s| ==> r == []
  {
    if start >= |s| then [] else s[start..]
  }

  /** `s.slice(1, -1)`: drops the first and the last character; empty for fewer than three characters. */
  function SliceInner(s: string): (r: string)
    ensures |s| >= 2 ==> s == s[..1] + r + s[|s| - 1..]
    ensures |s| < 2 ==> r == []
  {
    if |s| < 2 then [] else s[1..|s| - 1]
  }

  /** The number of white-space characters `s` starts with. */
  function LeadingSpaces(s: string): (k: nat)
    ensures k <= |s| && AllSpace(s[..k])
    ensures k == |s| || !IsJsSpace(s[k])
    decreases |s|
  {
    if |s| > 0 && IsJsSpace(s[0]) then
      var k := 1 + LeadingSpaces(s[1..]);
      assert s[..k] == [s[0]] + s[1..][..k - 1];
      k
    else 0
  }

  /** The number of white-space characters `s` ends with. */
  function TrailingSpaces(s: string): (k: nat)
    ensures k <= |s| && AllSpace(s[|s| - k..])
    ensures k == |s| || !IsJsSpace(s[|s| - k - 1])
    decreases |s|
  {
    if |s| > 0 && IsJsSpace(s[|s| - 1]) then
      var k := 1 + TrailingSpaces(s[..|s| - 1]);
      assert s[|s| - k..] == s[..|s| - 1][|s| - k..] + [s[|s| - 1]];
      k
    else 0
  }

  /** `s.trim()`: the longest slice of `s` that neither starts nor ends with white space. */
  function Trim(s: string): (r: string)
    ensures exists i :: Padded(s, r, i)
    ensures r == [] || (!IsJsSpace(r[0]) && !IsJsSpace(r[|r| - 1]))
  {
    var i := LeadingSpaces(s);
    var j := TrailingSpaces(s[i..]);
    TrimParts(s, i, j);
    s[i..|s| - j]
  }

  /** Cutting the leading and the trailing white space leaves a padded middle. */
  lemma TrimParts(s: string, i: nat, j: nat)
    requires i <= |s| && AllSpace(s[..i]) && (i == |s| || !IsJsSpace(s[i]))
    requires j <= |s| - i && AllSpace(s[i..][|s| - i - j..]) && (j == |s| - i || !IsJsSpace(s[i..][|s| - i - j - 1]))
    ensures var r := s[i..|s| - j]; Padded(s, r, i) && (r == [] || (!IsJsSpace(r[0]) && !IsJsSpace(r[|r| - 1])))
  {
    assert s[i..][|s| - i - j..] == s[|s| - j..];
  }

  /** `s` is `r` at position `i` with nothing but white space on either side. */
  predicate Padded(s: string, r: string, i: int)
  {
    0 <= i <= i + |r| <= |s| && s[i..i + |r|] == r && AllSpace(s[..i]) && AllSpace(s[i + |r|..])
  }

  /** White space around a text that starts and ends with a non-space character is what `trim` removes. */
  lemma TrimPadded(w1: string, m: string, w2: string)
    requires AllSpace(w1) && AllSpace(w2)
    requires m == [] || (!IsJsSpace(m[0]) && !IsJsSpace(m[|m| - 1]))
    ensures Trim(w1 + m + w2) == m
  {
    var s := w1 + m + w2;
    if m == [] {
      assert s == w1 + w2;
      assert AllSpace(s);
      LeadingExactly(s, |s|);
      assert s[|s|..] == [];
    } else {
      assert s[..|w1|] == w1 && s[|w1|] == m[0];
      LeadingExactly(s, |w1|);
      var t := s[|w1|..];
      assert t == m + w2;
      assert t[|t| - |w2|..] == w2 && t[|t| - |w2| - 1] == m[|m| - 1];
      TrailingExactly(t, |w2|);
      assert s[|w1|..|s| - |w2|] == m;
    }
  }

  /** A text whose first `n` characters are white space and whose next one is not starts with exactly `n` of them. */
  lemma LeadingExactly(s: string, n: nat)
    requires n <= |s| && AllSpace(s[..n]) && (n == |s| || !IsJsSpace(s[n]))
    ensures LeadingSpaces(s) == n
  {
    var k := LeadingSpaces(s);
    forall x | 0 <= x < k ensures IsJsSpace(s[x]) { assert s[..k][x] == s[x]; }
    forall x | 0 <= x < n ensures IsJsSpace(s[x]) { assert s[..n][x] == s[x]; }
  }

  /** A text whose last `n` characters are white space and whose one before is not ends with exactly `n` of them. */
  lemma TrailingExactly(s: string, n: nat)
    requires n <= |s| && AllSpace(s[|s| - n..]) && (n == |s| || !IsJsSpace(s[|s| - n - 1]))
    ensures TrailingSpaces(s) == n
  {
  }

  // ---------------------------------------------------------------------
  // join and split

  /** `xs.join(sep)`. */
  function Join(xs: seq<string>, sep: string): (r: string)
    ensures |xs| == 0 ==> r == []
    ensures |xs| == 1 ==> r == xs[0]
    decreases |xs|
  {
    if |xs| == 0 then []
    else if |xs| == 1 then xs[0]
    else xs[0] + sep + Join(xs[1..], sep)
  }

  /** Where `xs[i]` starts inside `Join(xs, sep)`. */
  function JoinOffset(xs: seq<string>, sep: string, i: nat): nat
    requires i < |xs|
    decreases i
  {
    if i == 0 then 0 else |xs[0]| + |sep| + JoinOffset(xs[1..], sep, i - 1)
  }

  /** Each element appears verbatim inside the joined text, at its offset, and offsets follow the order of `xs`. */
  lemma {:induction false} JoinHolds(xs: seq<string>, sep: string, i: nat)
    requires i < |xs|
    ensures JoinOffset(xs, sep, i) + |xs[i]| <= |Join(xs, sep)|
    ensures Join(xs, sep)[JoinOffset(xs, sep, i)..JoinOffset(xs, sep, i) + |xs[i]|] == xs[i]
    ensures i + 1 < |xs| ==> JoinOffset(xs, sep, i) + |xs[i]| + |sep| == JoinOffset(xs, sep, i + 1)
    decreases i
  {
    if |xs| == 1 {
    } else if i == 0 {
      assert Join(xs, sep) == xs[0] + (sep + Join(xs[1..], sep));
    } else {
      JoinHolds(xs[1..], sep, i - 1);
      var rest := Join(xs[1..], sep);
      var pre := xs[0] + sep;
      assert Join(xs, sep) == pre + rest;
      var o := JoinOffset(xs[1..], sep, i - 1);
      assert (pre + rest)[|pre| + o..|pre| + o + |xs[i]|] == rest[o..o + |xs[i]|];
    }
  }

  /** In a joined text, one separator follows each element but the last. */
  lemma {:induction false} JoinSeparates(xs: seq<string>, sep: string, i: nat)
    requires i + 1 < |xs|
    ensures At(Join(xs, sep), sep, JoinOffset(xs, sep, i) + |xs[i]|)
    decreases i
  {
    var rest := Join(xs[1..], sep);
    assert Join(xs, sep) == xs[0] + sep + rest;
    if i == 0 {
      AtLeft(xs[0] + sep, rest, sep, |xs[0]|);
      AtRight(xs[0], sep, sep, 0);
      assert At(sep, sep, 0);
    } else {
      JoinSeparates(xs[1..], sep, i - 1);
      AtRight(xs[0] + sep, rest, sep, JoinOffset(xs[1..], sep, i - 1) + |xs[1..][i - 1]|);
    }
  }

  /** `xs` is written into `t` from `start` on, in order, with `sep` between neighbours, as `Join` lays it out. */
  ghost predicate Listed(t: string, xs: seq<string>, sep: string, start: int)
  {
    forall i | 0 <= i < |xs| :: Placed(t, xs, sep, start, i)
  }

  /** The `i`-th element of `xs` sits where `Join` puts it, shifted by `start`, and a separator follows it unless it is the last. */
  ghost predicate Placed(t: string, xs: seq<string>, sep: string, start: int, i: nat)
    requires i < |xs|
  {
    && At(t, xs[i], start + JoinOffset(xs, sep, i))
    && (i + 1 < |xs| ==>
          At(t, sep, start + JoinOffset(xs, sep, i) + |xs[i]|)
          && JoinOffset(xs, sep, i + 1) == JoinOffset(xs, sep, i) + |xs[i]| + |sep|)
  }

  /** A joined list between an opening and a closing is listed right after the opening. */
  lemma JoinListed(open: string, xs: seq<string>, sep: string, close: string)
    ensures Listed(open + (Join(xs, sep) + close), xs, sep, |open|)
  {
    forall i | 0 <= i < |xs|
      ensures Placed(open + (Join(xs, sep) + close), xs, sep, |open|, i)
    {
      JoinPlaced(open, xs, sep, close, i);
    }
  }

  /** The `i`-th element of a joined list, and the separator after it, keep their places behind an opening. */
  lemma JoinPlaced(open: string, xs: seq<string>, sep: string, close: string, i: nat)
    requires i < |xs|
    ensures Placed(open + (Join(xs, sep) + close), xs, sep, |open|, i)
  {
    var j := Join(xs, sep);
    JoinHolds(xs, sep, i);
    InSection(open, j, close, xs[i], JoinOffset(xs, sep, i));
    if i + 1 < |xs| {
      JoinSeparates(xs, sep, i);
      InSection(open, j, close, sep, JoinOffset(xs, sep, i) + |xs[i]|);
    }
  }

  /** Every element of a listed sequence occurs in the text. */
  lemma ListedContains(t: string, xs: seq<string>, sep: string, start: int, i: nat)
    requires Listed(t, xs, sep, start) && i < |xs|
    ensures Contains(t, xs[i])
  {
    assert Placed(t, xs, sep, start, i);
    assert At(t, xs[i], start + JoinOffset(xs, sep, i));
  }

  /** An occurrence in the middle of a text keeps its place, shifted by what precedes it. */
  lemma InSection(open: string, mid: string, close: string, x: string, k: nat)
    requires At(mid, x, k)
    ensures At(open + (mid + close), x, |open| + k)
  {
    AtLeft(mid, close, x, k);
    AtRight(open, mid + close, x, k);
  }

  /** Joining a list of two or more elements puts a separator after the first. */
  lemma JoinCons(x: string, xs: seq<string>, sep: string)
    requires |xs| > 0
    ensures Join([x] + xs, sep) == x + sep + Join(xs, sep)
  {
    assert ([x] + xs)[1..] == xs;
  }

  /** Two texts joined: the first, the separator, the second. */
  lemma JoinTwo(a: string, b: string, sep: string)
    ensures Join([a, b], sep) == a + sep + b
  {
    JoinCons(a, [b], sep);
  }

  /** Four texts joined, separator between neighbours. */
  lemma JoinFour(a: string, b: string, c: string, d: string, sep: string)
    ensures Join([a, b, c, d], sep) == a + sep + b + sep + c + sep + d
  {
    JoinCons(a, [b, c, d], sep);
    JoinCons(b, [c, d], sep);
    JoinTwo(c, d, sep);
    assert [a] + [b, c, d] == [a, b, c, d] && [b] + [c, d] == [b, c, d];
  }

  /** Joining two non-empty lists puts one separator between their joined texts. */
  lemma {:induction false} JoinAppend(xs: seq<string>, ys: seq<string>, sep: string)
    requires |xs| > 0 && |ys| > 0
    ensures Join(xs + ys, sep) == Join(xs, sep) + sep + Join(ys, sep)
    decreases |xs|
  {
    if |xs| == 1 {
      assert (xs + ys)[1..] == ys;
    } else {
      JoinAppend(xs[1..], ys, sep);
      assert (xs + ys)[1..] == xs[1..] + ys;
    }
  }

  /** Three non-empty lists joined: a separator between each two. */
  lemma JoinThree(head: seq<string>, mid: seq<string>, tail: seq<string>, sep: string)
    requires |head| > 0 && |mid| > 0 && |tail| > 0
    ensures Join(head + mid + tail, sep) == Join(head, sep) + sep + Join(mid, sep) + sep + Join(tail, sep)
  {
    JoinAppend(head, mid, sep);
    JoinAppend(head + mid, tail, sep);
  }

  /** Cuts `s` at every occurrence of `c` (`s.split(c)` for a one-character separator). */
  function Split(s: string, c: char): (r: seq<string>)
    ensures |r| > 0
    decreases |s|
  {
    match FirstChar(s, c, 0)
    case None => [s]
    case Some(i) => [s[..i]] + Split(s[i + 1..], c)
  }

  /** Splitting undoes joining whenever the separator occurs in no element. */
  lemma {:induction false} SplitJoin(xs: seq<string>, c: char)
    requires |xs| > 0
    requires forall k | 0 <= k < |xs| :: Free(xs[k], c, 0, |xs[k]|)
    ensures Split(Join(xs, [c]), c) == xs
    decreases |xs|
  {
    var x := xs[0];
    if |xs| == 1 {
      assert FirstChar(x, c, 0).None?;
    } else {
      var rest := Join(xs[1..], [c]);
      var s := x + [c] + rest;
      assert Join(xs, [c]) == s;
      assert s[|x|] == c;
      assert Free(s, c, 0, |x|);
      assert FirstChar(s, c, 0) == Some(|x|) by {
        FirstCharIsLeast(s, c, 0, |x|);
      }
      assert s[..|x|] == x;
      assert s[|x| + 1..] == rest;
      SplitJoin(xs[1..], c);
      assert [xs[0]] + xs[1..] == xs;
    }
  }

  /** `FirstChar` finds exactly the least position holding `c`. */
  lemma FirstCharIsLeast(s: string, c: char, from: nat, i: nat)
    requires from <= i < |s| && s[i] == c && Free(s, c, from, i)
    ensures FirstChar(s, c, from) == Some(i)
  {
  }
}
