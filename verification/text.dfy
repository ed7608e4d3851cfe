/** The handful of Python string operations the two scripts rely on:
    `str.split()` with no separator, `str.strip()`, `sep.join(...)`,
    `str.startswith`, `str.splitlines()`, `str.upper()` and substring search
    (`re.search(re.escape(p), t)` is a plain substring test). */
module Text {

  /** Python's `str.isspace()` on one character: the ASCII whitespace
      controls, the separators U+001C..U+001F, and the Unicode space
      characters. */
  predicate IsSpace(c: char)
  {
    var n := c as int;
    if n <= 0x20 then n == 0x20 || 0x09 <= n <= 0x0D || 0x1C <= n <= 0x1F
    else if n < 0x85 then false
    else (n == 0x85 || n == 0xA0 || n == 0x1680 || 0x2000 <= n <= 0x200A
          || n == 0x2028 || n == 0x2029 || n == 0x202F || n == 0x205F || n == 0x3000)
  }

  /** The characters `str.splitlines()` breaks at (`\r\n` counts as one break). */
  predicate IsLineBreak(c: char)
  {
    var n := c as int;
    0x0A <= n <= 0x0D || 0x1C <= n <= 0x1E || n == 0x85 || n == 0x2028 || n == 0x2029
  }

  /** A non-empty run of non-space characters: what `str.split()` returns. */
  predicate IsToken(w: string)
  {
    |w| > 0 && forall i :: 0 <= i < |w| ==> !IsSpace(w[i])
  }

  predicate NoLineBreak(s: string)
  {
    forall i :: 0 <= i < |s| ==> !IsLineBreak(s[i])
  }

  /** `s.lstrip()`: the suffix left after dropping leading whitespace. */
  function LStrip(s: string): (r: string)
    ensures |r| <= |s|
    ensures forall i :: 0 <= i < |r| ==> r[i] == s[|s| - |r| + i]
    ensures forall i :: 0 <= i < |s| - |r| ==> IsSpace(s[i])
    ensures |r| > 0 ==> !IsSpace(r[0])
  {
    if |s| > 0 && IsSpace(s[0]) then
      var r := LStrip(s[1..]);
      assert forall i :: 1 <= i < |s| ==> s[i] == s[1..][i - 1];
      r
    else s
  }

  /** `s.rstrip()`: the prefix left after dropping trailing whitespace. */
  function RStrip(s: string): (r: string)
    ensures |r| <= |s|
    ensures forall i :: 0 <= i < |r| ==> r[i] == s[i]
    ensures forall i :: |r| <= i < |s| ==> IsSpace(s[i])
    ensures |r| > 0 ==> !IsSpace(r[|r| - 1])
  {
    if |s| > 0 && IsSpace(s[|s| - 1]) then RStrip(s[..|s| - 1]) else s
  }

  /** `s.strip()`. */
  function Strip(s: string): (r: string)
    ensures |r| <= |LStrip(s)|
    ensures forall i :: 0 <= i < |r| ==> r[i] == LStrip(s)[i]
    ensures forall i :: |r| <= i < |LStrip(s)| ==> IsSpace(LStrip(s)[i])
    ensures |r| == 0 <==> |LStrip(s)| == 0
    ensures |r| > 0 ==> !IsSpace(r[0]) && !IsSpace(r[|r| - 1])
  {
    RStrip(LStrip(s))
  }

  /** Length of the leading run of non-space characters. */
  function TokenLen(s: string): (n: nat)
    ensures n <= |s|
    ensures forall i :: 0 <= i < n ==> !IsSpace(s[i])
    ensures n < |s| ==> IsSpace(s[n])
  {
    if |s| == 0 || IsSpace(s[0]) then 0 else 1 + TokenLen(s[1..])
  }

  /** `s.split()`: the maximal runs of non-space characters, in order. */
  function Split(s: string): (r: seq<string>)
    ensures forall i :: 0 <= i < |r| ==> IsToken(r[i])
    ensures |r| == 0 <==> |LStrip(s)| == 0
    decreases |s|
  {
    var t := LStrip(s);
    if |t| == 0 then []
    else
      var n := TokenLen(t);
      var w := t[..n];
      LeadingToken(t);
      var rest := Split(t[n..]);
      var r := [w] + rest;
      assert rest == r[1..];
      r
  }

  /** `sep.join(xs)`. */
  function JoinWith(sep: string, xs: seq<string>): string
  {
    if |xs| == 0 then ""
    else if |xs| == 1 then xs[0]
    else xs[0] + sep + JoinWith(sep, xs[1..])
  }

  /** `s.startswith(p)`. */
  predicate StartsWith(s: string, p: string)
    decreases |p|
  {
    |p| == 0 || (|s| > 0 && s[0] == p[0] && StartsWith(s[1..], p[1..]))
  }

  /** The character-by-character test is the prefix relation. */
  lemma {:induction false} StartsWithIsPrefix(s: string, p: string)
    ensures StartsWith(s, p) <==> p <= s
    decreases |p|
  {
    if |p| > 0 && |s| > 0 {
      StartsWithIsPrefix(s[1..], p[1..]);
      if p <= s {
        assert p[1..] <= s[1..];
      }
      if s[0] == p[0] && p[1..] <= s[1..] {
        assert p == [p[0]] + p[1..] && s == [s[0]] + s[1..];
      }
    }
  }

  /** `needle` occurs in `hay` starting at index `i`. */
  predicate OccursAt(hay: string, needle: string, i: int)
  {
    0 <= i && i + |needle| <= |hay| && hay[i..i + |needle|] == needle
  }

  /** `re.search(re.escape(needle), hay) is not None`: a left-to-right scan
      for an occurrence of `needle`. */
  function Contains(hay: string, needle: string): bool
    decreases |hay|
  {
    if StartsWith(hay, needle) then true
    else if |hay| == 0 then false
    else Contains(hay[1..], needle)
  }

  /** The scan finds `needle` exactly when it occurs somewhere in `hay`. */
  lemma {:induction false} ContainsOccurs(hay: string, needle: string)
    ensures Contains(hay, needle) <==> exists i :: OccursAt(hay, needle, i)
    decreases |hay|
  {
    StartsWithIsPrefix(hay, needle);
    if needle <= hay {
      assert OccursAt(hay, needle, 0);
    } else if |hay| > 0 {
      ContainsOccurs(hay[1..], needle);
      if Contains(hay[1..], needle) {
        var j :| OccursAt(hay[1..], needle, j);
        OccursShift(hay, needle, j + 1);
      }
      if exists i :: OccursAt(hay, needle, i) {
        var i :| OccursAt(hay, needle, i);
        assert i != 0;
        OccursShift(hay, needle, i);
      }
    }
  }

  /** An occurrence past the first character is one in the rest of `hay`,
      one position earlier. */
  lemma OccursShift(hay: string, needle: string, i: int)
    requires 1 <= i && |hay| > 0
    ensures OccursAt(hay, needle, i) <==> OccursAt(hay[1..], needle, i - 1)
  {
    if i + |needle| <= |hay| {
      assert hay[1..][i - 1..i - 1 + |needle|] == hay[i..i + |needle|];
    }
  }

  /** `c.upper()` for ASCII letters and the basic Cyrillic alphabet
      (U+0430..U+044F and U+0450..U+045F); every other character is its own
      upper case here. */
  function UpperChar(c: char): char
  {
    var n := c as int;
    if 0x61 <= n <= 0x7A || 0x430 <= n <= 0x44F then (n - 0x20) as char
    else if 0x450 <= n <= 0x45F then (n - 0x50) as char
    else c
  }

  /** `s.upper()`, character by character. */
  function Upper(s: string): string
  {
    if |s| == 0 then [] else [UpperChar(s[0])] + Upper(s[1..])
  }

  /** `re.search(re.escape(needle), hay, re.IGNORECASE)`: both sides are
      compared after upper-casing. */
  predicate ContainsIgnoreCase(hay: string, needle: string)
  {
    Contains(Upper(hay), Upper(needle))
  }

  /** Length of the leading run of characters that are not line breaks. */
  function LineLen(s: string): (n: nat)
    ensures n <= |s|
    ensures forall i :: 0 <= i < n ==> !IsLineBreak(s[i])
    ensures n < |s| ==> IsLineBreak(s[n])
  {
    if |s| == 0 || IsLineBreak(s[0]) then 0 else 1 + LineLen(s[1..])
  }

  /** `s.splitlines()`: the lines without their terminators; a final
      terminator does not start an empty last line. */
  function SplitLines(s: string): (r: seq<string>)
    ensures forall i :: 0 <= i < |r| ==> NoLineBreak(r[i])
    decreases |s|
  {
    if |s| == 0 then []
    else
      var n := LineLen(s);
      if n == |s| then [s]
      else
        var skip := if s[n] == '\r' && n + 1 < |s| && s[n + 1] == '\n' then 2 else 1;
        [s[..n]] + SplitLines(s[n + skip..])
  }

  /** `" ".join(line.strip() for line in text.splitlines())`: one page folded
      onto a single line. */
  function Flatten(text: string): string
  {
    var lines := SplitLines(text);
    JoinWith(" ", seq(|lines|, i requires 0 <= i < |lines| => Strip(lines[i])))
  }

  /** A flattened page is a single line. */
  lemma FlattenIsOneLine(text: string)
    ensures NoLineBreak(Flatten(text))
  {
    var lines := SplitLines(text);
    var stripped := seq(|lines|, i requires 0 <= i < |lines| => Strip(lines[i]));
    forall i | 0 <= i < |lines|
      ensures NoLineBreak(stripped[i])
    {
      SubstringNoLineBreak(lines[i]);
    }
    JoinNoLineBreak(stripped);
  }

  /** `s.split()[-1]`. */
  function Last(ws: seq<string>): string
    requires |ws| > 0
  {
    ws[|ws| - 1]
  }

  // ---------------------------------------------------------------------
  // Lemmas

  /** A string that starts with a non-space character starts with a token. */
  lemma LeadingToken(t: string)
    requires |t| > 0 && !IsSpace(t[0])
    ensures 0 < TokenLen(t) && IsToken(t[..TokenLen(t)])
  {
    var w := t[..TokenLen(t)];
    forall i | 0 <= i < |w|
      ensures !IsSpace(w[i])
    {
      assert w[i] == t[i];
    }
  }

  /** A string that ends in a non-space character is its own `rstrip()`. */
  lemma RStripKeeps(s: string)
    requires |s| > 0 && !IsSpace(s[|s| - 1])
    ensures RStrip(s) == s
  {
  }

  lemma SubstringNoLineBreak(s: string)
    requires NoLineBreak(s)
    ensures NoLineBreak(Strip(s))
  {
    var l := LStrip(s);
    var r := Strip(s);
    forall i | 0 <= i < |r|
      ensures !IsLineBreak(r[i])
    {
      LStripAt(s, i);
      assert r[i] == l[i];
    }
  }

  /** `lstrip()` returns a suffix of its argument. */
  lemma {:induction false} LStripIsSuffix(s: string)
    ensures LStrip(s) == s[|s| - |LStrip(s)|..]
  {
    if |s| > 0 && IsSpace(s[0]) {
      LStripIsSuffix(s[1..]);
      assert s[1..][|s| - 1 - |LStrip(s)|..] == s[|s| - |LStrip(s)|..];
    }
  }

  lemma LStripAt(s: string, i: int)
    requires 0 <= i < |LStrip(s)|
    ensures 0 <= |s| - |LStrip(s)| + i < |s| && LStrip(s)[i] == s[|s| - |LStrip(s)| + i]
  {
  }

  lemma {:induction false} JoinNoLineBreak(xs: seq<string>)
    requires forall i :: 0 <= i < |xs| ==> NoLineBreak(xs[i])
    ensures NoLineBreak(JoinWith(" ", xs))
  {
    if |xs| > 1 {
      JoinNoLineBreak(xs[1..]);
      var j := JoinWith(" ", xs[1..]);
      var r := xs[0] + " " + j;
      forall i | 0 <= i < |r|
        ensures !IsLineBreak(r[i])
      {
        if i < |xs[0]| {
          assert r[i] == xs[0][i];
        } else if i > |xs[0]| {
          assert r[i] == j[i - |xs[0]| - 1];
        }
      }
    }
  }

  /** The first token is the leading run of the left-stripped string. */
  lemma FirstTokenIsLeadingRun(s: string)
    requires |LStrip(s)| > 0
    ensures |Split(s)| > 0 && Split(s)[0] == LStrip(s)[..TokenLen(LStrip(s))]
  {
  }

  /** `w` sits in `s` at `k` as its last whitespace-delimited run: the start
      of `s` or a blank before it, nothing but blanks after it. */
  ghost predicate TrailingRunAt(s: string, w: string, k: int)
  {
    && 0 <= k && k + |w| <= |s|
    && s[k..k + |w|] == w
    && (k == 0 || IsSpace(s[k - 1]))
    && |LStrip(s[k + |w|..])| == 0
  }

  /** The last element of `split()` is the last run of non-space characters
      of the string; `k` is where it starts. */
  lemma {:induction false} LastTokenIsTrailingRun(s: string) returns (k: nat)
    requires |LStrip(s)| > 0
    ensures |Split(s)| > 0 && TrailingRunAt(s, Last(Split(s)), k)
    decreases |s|
  {
    var off, n := SplitHead(s);
    if |LStrip(s[off + n..])| == 0 {
      k := off;
      LastTokenAlone(s, off, n);
    } else {
      var k' := LastTokenIsTrailingRun(s[off + n..]);
      k := off + n + k';
      LaterToken(s, off, n);
      LastTokenLater(s, off, n, k', k);
    }
  }

  /** `split()` first takes the token of length `n` at `off`, after blanks,
      then splits what follows it. */
  ghost predicate SplitsAt(s: string, off: nat, n: nat)
  {
    && 0 < n && off + n <= |s| && IsToken(s[off..off + n])
    && (off == 0 || IsSpace(s[off - 1]))
    && (off + n < |s| ==> IsSpace(s[off + n]))
    && Split(s) == [s[off..off + n]] + Split(s[off + n..])
  }

  lemma LastTokenAlone(s: string, off: nat, n: nat)
    requires SplitsAt(s, off, n) && |LStrip(s[off + n..])| == 0
    ensures |Split(s)| > 0 && TrailingRunAt(s, Last(Split(s)), off)
  {
    LastOfOne(s[off..off + n], Split(s[off + n..]));
  }

  lemma LastTokenLater(s: string, off: nat, n: nat, k': nat, k: nat)
    requires off + n <= |s| && k == off + n + k'
    requires |s[off + n..]| > 0 && IsSpace(s[off + n..][0])
    requires |Split(s[off + n..])| > 0 && IsToken(Last(Split(s[off + n..])))
    requires |Split(s)| > 0 && Last(Split(s)) == Last(Split(s[off + n..]))
    requires TrailingRunAt(s[off + n..], Last(Split(s[off + n..])), k')
    ensures TrailingRunAt(s, Last(Split(s)), k)
  {
    TrailingRunShift(s, s[off + n..], Last(Split(s[off + n..])), Last(Split(s)), k', off + n, k);
  }

  /** When something follows the first token, it starts with a blank and
      holds the last token. */
  lemma LaterToken(s: string, off: nat, n: nat)
    requires SplitsAt(s, off, n) && |LStrip(s[off + n..])| > 0
    ensures var rest := s[off + n..];
      && |rest| > 0 && IsSpace(rest[0])
      && |Split(rest)| > 0 && IsToken(Last(Split(rest)))
      && |Split(s)| > 0 && Last(Split(s)) == Last(Split(rest))
  {
    var rest := s[off + n..];
    var tail := Split(rest);
    assert rest[0] == s[off + n];
    LastOfCons(s[off..off + n], tail);
    assert IsToken(tail[|tail| - 1]);
  }

  /** The first step of `split()`. */
  lemma SplitHead(s: string) returns (off: nat, n: nat)
    requires |LStrip(s)| > 0
    ensures SplitsAt(s, off, n)
  {
    var t := LStrip(s);
    off := |s| - |t|;
    n := TokenLen(t);
    LeadingToken(t);
    assert Split(s) == [t[..n]] + Split(t[n..]);
    SuffixSlices(s, t, off, n);
  }

  lemma SuffixSlices(s: string, t: string, off: nat, n: nat)
    requires t == LStrip(s) && off == |s| - |t| && n <= |t|
    ensures t[..n] == s[off..off + n] && t[n..] == s[off + n..]
  {
    LStripIsSuffix(s);
    SlicesOfSuffix(s, t, off, n);
  }

  lemma SlicesOfSuffix(s: string, t: string, off: nat, n: nat)
    requires off <= |s| && t == s[off..] && n <= |t|
    ensures t[..n] == s[off..off + n] && t[n..] == s[off + n..]
  {
  }

  lemma LastOfOne(x: string, xs: seq<string>)
    requires xs == []
    ensures Last([x] + xs) == x
  {
  }

  lemma LastOfCons(x: string, xs: seq<string>)
    requires |xs| > 0
    ensures Last([x] + xs) == Last(xs)
  {
  }

  /** The trailing run of a suffix that does not start it is the trailing
      run of the whole string. */
  lemma TrailingRunShift(s: string, rest: string, w: string, w': string, k: nat, d: nat, at: nat)
    requires d <= |s| && rest == s[d..] && at == d + k
    requires TrailingRunAt(rest, w, k) && IsToken(w) && w' == w
    requires |rest| > 0 && IsSpace(rest[0])
    ensures TrailingRunAt(s, w', at)
  {
    assert rest[k] == rest[k..k + |w|][0] == w[0];
    assert k > 0;
    assert s[d + k - 1] == rest[k - 1];
    assert s[d + k..d + k + |w|] == rest[k..k + |w|];
    assert s[d + k + |w|..] == rest[k + |w|..];
  }

  /** A leading blank does not change what `split()` returns. */
  lemma SplitSkipsBlank(x: string)
    ensures Split(" " + x) == Split(x)
  {
    assert (" " + x)[1..] == x;
    assert LStrip(" " + x) == LStrip(x);
  }

  /** The leading token of `w + rest` is `w` when `rest` starts with a blank. */
  lemma TokenLenOfToken(w: string, rest: string)
    requires IsToken(w) && |rest| > 0 && IsSpace(rest[0])
    ensures TokenLen(w + rest) == |w|
  {
    assert (w + rest)[|w|] == rest[0];
  }

  /** A single token splits to itself. */
  lemma SplitToken(w: string)
    requires IsToken(w)
    ensures Split(w) == [w]
  {
    assert LStrip(w) == w;
    assert w[..|w|] == w;
    assert LStrip(w[|w|..]) == "";
  }

  /** A token followed by a blank is the first element of the split. */
  lemma SplitTokenBlank(w: string, tail: string)
    requires IsToken(w)
    ensures Split(w + " " + tail) == [w] + Split(tail)
  {
    var j := w + " " + tail;
    assert j == w + (" " + tail);
    assert LStrip(j) == j;
    TokenLenOfToken(w, " " + tail);
    assert j[..|w|] == w;
    assert j[|w|..] == " " + tail;
    SplitSkipsBlank(tail);
  }

  /** Any blank cuts the split in two: what comes before it and what comes
      after it are split independently. With `SplitToken`, this pins every
      element of `split()`, not only the first and the last. */
  lemma {:induction false} SplitAtBlank(a: string, c: char, b: string)
    requires IsSpace(c)
    ensures Split(a + [c] + b) == Split(a) + Split(b)
    decreases |a|, 1
  {
    if |LStrip(a)| == 0 {
      SplitBlankHead(a, c, b);
    } else {
      SplitBlankAfterToken(a, c, b);
    }
  }

  /** `SplitAtBlank` when a token comes before the blank: that token heads
      both splits, and the rest of `a` is split with the blank by induction. */
  lemma {:induction false} SplitBlankAfterToken(a: string, c: char, b: string)
    requires IsSpace(c) && |LStrip(a)| > 0
    ensures Split(a + [c] + b) == Split(a) + Split(b)
    decreases |a|, 0
  {
    var t := LStrip(a);
    var n := TokenLen(t);
    var y := [c] + b;
    Assoc(a, [c], b);
    Assoc(t[n..], [c], b);
    SplitBlankStep(a, y, t, n);
    LeadingToken(t);
    SplitAtBlank(t[n..], c, b);
    SplitUnfold(a, t, n);
    Assoc([t[..n]], Split(t[n..]), Split(b));
  }

  lemma Assoc<T>(x: seq<T>, y: seq<T>, z: seq<T>)
    ensures x + y + z == x + (y + z)
  {
  }

  /** Before the first token, the blank is part of the leading whitespace. */
  lemma SplitBlankHead(a: string, c: char, b: string)
    requires IsSpace(c) && |LStrip(a)| == 0
    ensures Split(a + [c] + b) == Split(b)
  {
    var y := [c] + b;
    Assoc(a, [c], b);
    LStripBlankPrefix(a, y);
    LStripBlankPrefix([c], b);
    SplitSameLStrip(a + y, b);
  }

  /** One step of `split()` on a non-blank string: its leading token, then
      the split of the rest. */
  lemma {:induction false} SplitUnfold(s: string, t: string, n: nat)
    requires t == LStrip(s) && |t| > 0 && n == TokenLen(t)
    ensures Split(s) == [t[..n]] + Split(t[n..])
  {
  }

  /** The first step of `SplitAtBlank` away from the blank: the leading
      token of `a` is also that of `a + y` when `y` starts with a blank, and
      the rest carries `y`. */
  lemma {:induction false} SplitBlankStep(a: string, y: string, t: string, n: nat)
    requires |y| > 0 && IsSpace(y[0])
    requires t == LStrip(a) && |t| > 0 && n == TokenLen(t)
    ensures Split(a + y) == [t[..n]] + Split(t[n..] + y)
  {
    LStripAppend(a, y);
    TokenLenAppend(t, y);
    AppendSlices(t, y, n);
    SplitUnfold(a + y, t + y, n);
  }

  lemma AppendSlices(t: string, y: string, n: nat)
    requires n <= |t|
    ensures (t + y)[..n] == t[..n] && (t + y)[n..] == t[n..] + y
  {
  }

  /** Leading whitespace disappears under `lstrip()`. */
  lemma {:induction false} LStripBlankPrefix(w: string, y: string)
    requires forall i :: 0 <= i < |w| ==> IsSpace(w[i])
    ensures LStrip(w + y) == LStrip(y)
  {
    if |w| > 0 {
      assert (w + y)[1..] == w[1..] + y;
      LStripBlankPrefix(w[1..], y);
    } else {
      assert w + y == y;
    }
  }

  /** Once something is left after `lstrip()`, what follows is kept whole. */
  lemma {:induction false} LStripAppend(x: string, y: string)
    requires |LStrip(x)| > 0
    ensures LStrip(x + y) == LStrip(x) + y
  {
    if IsSpace(x[0]) {
      assert (x + y)[1..] == x[1..] + y;
      LStripAppend(x[1..], y);
    }
  }

  /** A leading token stops at the blank that follows the string. */
  lemma {:induction false} TokenLenAppend(t: string, y: string)
    requires |y| > 0 && IsSpace(y[0])
    ensures TokenLen(t + y) == TokenLen(t)
  {
    if |t| > 0 && !IsSpace(t[0]) {
      assert (t + y)[1..] == t[1..] + y;
      TokenLenAppend(t[1..], y);
    } else if |t| == 0 {
      assert t + y == y;
    }
  }

  /** `split()` looks only at what `lstrip()` leaves. */
  lemma SplitSameLStrip(x: string, y: string)
    requires LStrip(x) == LStrip(y)
    ensures Split(x) == Split(y)
  {
  }

  /** Splitting tokens joined by single blanks gives the tokens back: the
      round trip behind `' '.join(title.split()[1:])`. */
  lemma {:induction false} SplitJoinRoundTrip(ws: seq<string>)
    requires forall i :: 0 <= i < |ws| ==> IsToken(ws[i])
    ensures Split(JoinWith(" ", ws)) == ws
  {
    if |ws| == 0 {
      assert LStrip("") == "";
    } else if |ws| == 1 {
      assert JoinWith(" ", ws) == ws[0];
      SplitToken(ws[0]);
    } else {
      SplitJoinRoundTrip(ws[1..]);
      SplitJoinStep(ws);
    }
  }

  lemma SplitJoinStep(ws: seq<string>)
    requires |ws| >= 2 && IsToken(ws[0])
    requires Split(JoinWith(" ", ws[1..])) == ws[1..]
    ensures Split(JoinWith(" ", ws)) == ws
  {
    var tail := JoinWith(" ", ws[1..]);
    var j := JoinWith(" ", ws);
    assert j == ws[0] + " " + tail;
    SplitTokenBlank(ws[0], tail);
    HeadTail(ws);
  }

  /** Joining a single string gives that string. */
  lemma JoinOne(sep: string, x: string)
    ensures JoinWith(sep, [x]) == x
  {
  }

  /** A join ends with the last character of its last element. */
  lemma {:induction false} JoinEndsWithLast(sep: string, xs: seq<string>)
    requires |xs| > 0 && |Last(xs)| > 0
    ensures var j := JoinWith(sep, xs); |j| > 0 && j[|j| - 1] == Last(xs)[|Last(xs)| - 1]
  {
    if |xs| > 1 {
      JoinEndsWithLast(sep, xs[1..]);
      assert Last(xs[1..]) == Last(xs);
    }
  }

  lemma HeadTail<T>(s: seq<T>)
    requires |s| > 0
    ensures [s[0]] + s[1..] == s
  {
  }

  /** Joining two non-empty lists puts one separator between the parts. */
  lemma {:induction false} JoinConcat(sep: string, xs: seq<string>, ys: seq<string>)
    requires |xs| > 0 && |ys| > 0
    ensures JoinWith(sep, xs + ys) == JoinWith(sep, xs) + sep + JoinWith(sep, ys)
  {
    if |xs| == 1 {
      assert (xs + ys)[1..] == ys;
    } else {
      assert (xs + ys)[1..] == xs[1..] + ys;
      JoinConcat(sep, xs[1..], ys);
    }
  }

  /** Splitting lines joined by `\n` gives them back, provided no line holds
      a break and the last one is not empty (a trailing terminator does not
      open a new line). */
  lemma {:induction false} SplitLinesRoundTrip(lines: seq<string>)
    requires |lines| > 0 && |Last(lines)| > 0
    requires forall i :: 0 <= i < |lines| ==> NoLineBreak(lines[i])
    ensures SplitLines(JoinWith("\n", lines)) == lines
  {
    var l := lines[0];
    if |lines| == 1 {
      assert LineLen(l) == |l|;
    } else {
      var tail := JoinWith("\n", lines[1..]);
      var j := l + "\n" + tail;
      assert JoinWith("\n", lines) == j;
      assert j[|l|] == '\n';
      assert LineLen(j) == |l|;
      assert j[..|l|] == l;
      assert j[|l| + 1..] == tail;
      SplitLinesRoundTrip(lines[1..]);
      assert [l] + lines[1..] == lines;
    }
  }

  /** Lines joined by `\n` with a final `\n`, as a page's text usually
      ends, split back into the same lines: the final terminator does not
      start an empty line. */
  lemma {:induction false} SplitLinesTerminated(lines: seq<string>)
    requires |lines| > 0
    requires forall i :: 0 <= i < |lines| ==> NoLineBreak(lines[i])
    ensures SplitLines(JoinWith("\n", lines) + "\n") == lines
  {
    var l := lines[0];
    if |lines| == 1 {
      assert JoinWith("\n", lines) + "\n" == l + "\n" + "";
      SplitLinesHead(l, "");
    } else {
      var rest := JoinWith("\n", lines[1..]);
      assert JoinWith("\n", lines) == l + "\n" + rest;
      Assoc(l + "\n", rest, "\n");
      SplitLinesHead(l, rest + "\n");
      SplitLinesTerminated(lines[1..]);
      assert [l] + lines[1..] == lines;
    }
  }

  /** A break-free line and its `\n` terminator come off the front of the
      text as one line. */
  lemma SplitLinesHead(l: string, tail: string)
    requires NoLineBreak(l)
    ensures SplitLines(l + "\n" + tail) == [l] + SplitLines(tail)
  {
    var j := l + "\n" + tail;
    assert j[|l|] == '\n';
    assert LineLen(j) == |l|;
    assert j[..|l|] == l;
    assert j[|l| + 1..] == tail;
  }


  /** A string whose only line breaks are `\n`, and which does not end in
      one, is its lines joined back by `\n`. */
  lemma {:induction false} SplitLinesJoin(s: string)
    requires forall i :: 0 <= i < |s| ==> IsLineBreak(s[i]) ==> s[i] == '\n'
    requires |s| == 0 || s[|s| - 1] != '\n'
    ensures JoinWith("\n", SplitLines(s)) == s
    decreases |s|
  {
    if |s| > 0 {
      var n := LineLen(s);
      if n < |s| {
        var rest := s[n + 1..];
        assert s[n] == '\n';
        assert |rest| > 0;
        forall i | 0 <= i < |rest| ensures IsLineBreak(rest[i]) ==> rest[i] == '\n' {
          assert rest[i] == s[n + 1 + i];
        }
        SplitLinesJoin(rest);
        var lines := SplitLines(rest);
        assert SplitLines(s) == [s[..n]] + lines;
        assert ([s[..n]] + lines)[1..] == lines;
        assert s == s[..n] + "\n" + rest;
      }
    }
  }

  /** A page that is a single line flattens to that line stripped. */
  lemma FlattenOneLine(text: string)
    requires |text| > 0 && NoLineBreak(text)
    ensures Flatten(text) == Strip(text)
  {
    assert LineLen(text) == |text|;
    var lines := SplitLines(text);
    assert lines == [text];
    var stripped := seq(|lines|, i requires 0 <= i < |lines| => Strip(lines[i]));
    assert stripped == [Strip(text)];
    JoinOne(" ", Strip(text));
  }
}
