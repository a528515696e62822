/**
 * The Python string operations the modelled code relies on, stated over `seq<char>`:
 * `str.strip`, `str.lower`, the `in` operator, `str.find`, `str.split`, `str.join`,
 * `str.replace`, `str.startswith`, slicing `s[:n]` and `str(n)` for integers.
 */
module Strings {

  /** `c.isspace()`: the characters `str.strip()` removes. */
  predicate IsSpace(c: char)
  {
    var n := c as int;
    (9 <= n <= 13) || (28 <= n <= 32) || n == 0x85 || n == 0xA0 || n == 0x1680
    || (0x2000 <= n <= 0x200A) || n == 0x2028 || n == 0x2029 || n == 0x202F
    || n == 0x205F || n == 0x3000
  }

  /** A string with no whitespace at either end, which is what `str.strip()` returns. */
  predicate IsStripped(s: string)
  {
    s == [] || (!IsSpace(s[0]) && !IsSpace(s[|s| - 1]))
  }

  /** `s.lstrip()`: the suffix left after dropping leading whitespace. */
  function StripStart(s: string): (r: string)
    ensures |r| <= |s| && r == s[|s| - |r|..]
    ensures r == [] || !IsSpace(r[0])
    ensures forall i :: 0 <= i < |s| - |r| ==> IsSpace(s[i])
  {
    if s != [] && IsSpace(s[0]) then StripStart(s[1..]) else s
  }

  /** `s.rstrip()`: the prefix left after dropping trailing whitespace. */
  function StripEnd(s: string): (r: string)
    ensures |r| <= |s| && r == s[..|r|]
    ensures r == [] || !IsSpace(r[|r| - 1])
    ensures forall i :: |r| <= i < |s| ==> IsSpace(s[i])
  {
    if s != [] && IsSpace(s[|s| - 1]) then StripEnd(s[..|s| - 1]) else s
  }

  /** `s.strip()`. */
  function Strip(s: string): (r: string)
    ensures IsStripped(r) && |r| <= |s|
    ensures r == [] <==> forall i :: 0 <= i < |s| ==> IsSpace(s[i])
  {
    var t := StripStart(s);
    var r := StripEnd(t);
    assert r != [] ==> r[0] == t[0];
    assert r == [] ==> t == [];
    r
  }

  /** `strip()` removes whitespace at the two ends and nothing else: it returns a slice of `s` with only whitespace around it. */
  lemma StripTrims(s: string)
    ensures exists a, b ::
      0 <= a <= b <= |s| && Strip(s) == s[a..b] && forall i :: 0 <= i < a || b <= i < |s| ==> IsSpace(s[i])
  {
    StripOfStart(s);
    TrimmedSlice(s, StripStart(s), Strip(s));
  }

  /** `strip()` is `rstrip()` after `lstrip()`. */
  lemma StripOfStart(s: string)
    ensures Strip(s) == StripEnd(StripStart(s))
  {
  }

  /** A prefix `r` of a suffix `t` of `s`, with only whitespace cut off on each side, is a slice of `s` with only whitespace around it. */
  lemma TrimmedSlice(s: string, t: string, r: string)
    requires |t| <= |s| && t == s[|s| - |t|..] && forall i :: 0 <= i < |s| - |t| ==> IsSpace(s[i])
    requires |r| <= |t| && r == t[..|r|] && forall i :: |r| <= i < |t| ==> IsSpace(t[i])
    ensures exists a, b ::
      0 <= a <= b <= |s| && r == s[a..b] && forall i :: 0 <= i < a || b <= i < |s| ==> IsSpace(s[i])
  {
    var a := |s| - |t|;
    var b := a + |r|;
    assert r == s[a..b];
    forall i | b <= i < |s| ensures IsSpace(s[i]) {
      assert s[i] == t[i - a];
    }
  }

  /** Stripping a string that is already stripped changes nothing. */
  lemma StripOfStripped(s: string)
    requires IsStripped(s)
    ensures Strip(s) == s
  {
  }

  /** Leading whitespace does not survive `strip()`. */
  lemma StripLeadingSpace(c: char, s: string)
    requires IsSpace(c)
    ensures Strip([c] + s) == Strip(s)
  {
    assert ([c] + s)[1..] == s;
  }

  /** `c.lower()` for the ASCII letters; every other character is kept. */
  function LowerChar(c: char): char
  {
    if 'A' <= c <= 'Z' then (c as int + 32) as char else c
  }

  /** `s.lower()`, character by character. */
  function Lower(s: string): (r: string)
    ensures |r| == |s|
  {
    seq(|s|, i requires 0 <= i < |s| => LowerChar(s[i]))
  }

  /** `pat` occurs in `s` starting at index `i`. */
  predicate ContainsAt(s: string, pat: string, i: int)
  {
    0 <= i && i + |pat| <= |s| && s[i..i + |pat|] == pat
  }

  /** Python's `pat in s`. */
  predicate Contains(s: string, pat: string)
  {
    exists i :: 0 <= i <= |s| - |pat| && ContainsAt(s, pat, i)
  }

  /** `s.find(pat, from)`: the lowest index at or after `from` where `pat` occurs, or -1. */
  function Find(s: string, pat: string, from: nat): (r: int)
    ensures r == -1 || (from <= r && ContainsAt(s, pat, r))
    decreases |s| - from
  {
    if from + |pat| > |s| then -1
    else if ContainsAt(s, pat, from) then from
    else Find(s, pat, from + 1)
  }

  /** `find` reports the first occurrence, and -1 exactly when there is none. */
  lemma {:induction false} FindSpec(s: string, pat: string, from: nat)
    ensures Find(s, pat, from) != -1 ==> forall j :: from <= j < Find(s, pat, from) ==> !ContainsAt(s, pat, j)
    ensures Find(s, pat, from) == -1 <==> forall j :: from <= j ==> !ContainsAt(s, pat, j)
    decreases |s| - from
  {
    if from + |pat| <= |s| && !ContainsAt(s, pat, from) {
      FindSpec(s, pat, from + 1);
    }
  }

  /** A stretch that no occurrence starts in holds no occurrence. */
  lemma NoOccurrenceIn(s: string, pat: string, from: nat, end: nat)
    requires |pat| > 0 && from <= end <= |s|
    requires forall j :: from <= j < end ==> !ContainsAt(s, pat, j)
    ensures !Contains(s[from..end], pat)
  {
    var c := s[from..end];
    forall q | 0 <= q ensures !ContainsAt(c, pat, q) {
      if q + |pat| <= |c| {
        var a, b := c[q..q + |pat|], s[from + q..from + q + |pat|];
        forall i | 0 <= i < |pat| ensures a[i] == b[i] {
          assert c[q + i] == s[from + q + i];
        }
        assert a == b;
        assert !ContainsAt(s, pat, from + q);
      }
    }
  }

  /** `find` returns `k` when `pat` occurs at `k` and nowhere between `from` and `k`. */
  lemma {:induction false} FindAt(s: string, pat: string, from: nat, k: nat)
    requires from <= k && ContainsAt(s, pat, k)
    requires forall j :: from <= j < k ==> !ContainsAt(s, pat, j)
    ensures Find(s, pat, from) == k
    decreases k - from
  {
    if from < k {
      FindAt(s, pat, from + 1, k);
    }
  }

  /** `find` returns -1 when `pat` occurs nowhere from `from` on. */
  lemma {:induction false} FindNone(s: string, pat: string, from: nat)
    requires forall j :: from <= j ==> !ContainsAt(s, pat, j)
    ensures Find(s, pat, from) == -1
    decreases |s| - from
  {
    if from + |pat| <= |s| {
      FindNone(s, pat, from + 1);
    }
  }

  /** `s.startswith(p)`. */
  predicate StartsWith(s: string, p: string)
  {
    |p| <= |s| && s[..|p|] == p
  }

  /** `s.endswith(p)`. */
  predicate EndsWith(s: string, p: string)
  {
    |p| <= |s| && s[|s| - |p|..] == p
  }

  lemma StartsWithConcat(a: string, b: string)
    ensures StartsWith(a + b, a)
  {
    assert (a + b)[..|a|] == a;
  }

  lemma EndsWithConcat(a: string, b: string)
    ensures EndsWith(a + b, b)
  {
    assert (a + b)[|a|..] == b;
  }

  lemma FramedBy(head: string, middle: string, tail: string)
    ensures StartsWith(head + middle + tail, head) && EndsWith(head + middle + tail, tail)
  {
    StartsWithConcat(head, middle + tail);
    EndsWithConcat(head + middle, tail);
    assert head + (middle + tail) == head + middle + tail;
  }

  /** `sep.join(xs)`. */
  function Join(xs: seq<string>, sep: string): string
  {
    if |xs| == 0 then []
    else if |xs| == 1 then xs[0]
    else xs[0] + sep + Join(xs[1..], sep)
  }

  /**
   * `s.split(sep)` for a non-empty separator, scanning left to right: an occurrence of `sep`
   * at the front ends the current (here: empty) piece; otherwise the first character belongs to
   * the first piece. The cuts are the leftmost non-overlapping occurrences, as in Python.
   */
  function Split(s: string, sep: string): (r: seq<string>)
    requires |sep| > 0
    ensures |r| >= 1
    decreases |s|
  {
    if |s| < |sep| then [s]
    else if s[..|sep|] == sep then [[]] + Split(s[|sep|..], sep)
    else
      var rest := Split(s[1..], sep);
      [[s[0]] + rest[0]] + rest[1..]
  }

  /** `s.replace(pat, with)` for a non-empty `pat`, scanning left to right like `Split`. */
  function Replace(s: string, pat: string, with: string): string
    requires |pat| > 0
    decreases |s|
  {
    if |s| < |pat| then s
    else if s[..|pat|] == pat then with + Replace(s[|pat|..], pat, with)
    else [s[0]] + Replace(s[1..], pat, with)
  }

  /** `xs[-1]`. */
  function Last<T>(xs: seq<T>): T
    requires |xs| > 0
  {
    xs[|xs| - 1]
  }

  /** The slice `s[:n]`, including Python's meaning of a negative `n` (count from the end). */
  function Take<T>(s: seq<T>, n: int): (r: seq<T>)
    ensures |r| <= |s| && r == s[..|r|]
    ensures 0 <= n ==> |r| == if n <= |s| then n else |s|
  {
    if n >= 0 then (if n <= |s| then s[..n] else s)
    else if |s| + n >= 0 then s[..|s| + n] else []
  }

  /** The decimal digit for 0 <= d < 10. */
  function DigitChar(d: nat): char
    requires d < 10
  {
    "0123456789"[d]
  }

  /** `str(n)` for a natural number. */
  function NatString(n: nat): (r: string)
    ensures |r| >= 1
    ensures forall i :: 0 <= i < |r| ==> '0' <= r[i] <= '9'
  {
    if n < 10 then [DigitChar(n)] else NatString(n / 10) + [DigitChar(n % 10)]
  }

  /** `str(n)` (also `f"{n}"`) for an integer. */
  function IntString(n: int): string
  {
    if n < 0 then "-" + NatString(-n) else NatString(n)
  }


  // ---------------------------------------------------------------------------------------
  // Lemmas about `in`, `split`, `join` and `replace` used by the models of the repository.
  // ---------------------------------------------------------------------------------------

  /** An occurrence in the tail is an occurrence in the whole string, one position later. */
  lemma ContainsTail(s: string, pat: string)
    requires |s| > 0 && Contains(s[1..], pat)
    ensures Contains(s, pat)
  {
    var i :| 0 <= i <= |s[1..]| - |pat| && ContainsAt(s[1..], pat, i);
    assert s[1..][i..i + |pat|] == s[i + 1..i + 1 + |pat|];
    assert ContainsAt(s, pat, i + 1);
  }

  /** A string containing `pat` contains its first character. */
  lemma ContainsFirstChar(s: string, pat: string)
    requires |pat| > 0 && Contains(s, pat)
    ensures pat[0] in s
  {
    var i :| 0 <= i <= |s| - |pat| && ContainsAt(s, pat, i);
    assert s[i..i + |pat|][0] == s[i];
  }

  /** A string containing `pat` contains every character of it. */
  lemma ContainsChars(s: string, pat: string, k: nat)
    requires k < |pat| && Contains(s, pat)
    ensures pat[k] in s
  {
    var i :| 0 <= i <= |s| - |pat| && ContainsAt(s, pat, i);
    assert s[i..i + |pat|][k] == s[i + k];
  }

  /** Lower-casing commutes with slicing. */
  lemma LowerSlice(s: string, i: nat, j: nat)
    requires i <= j <= |s|
    ensures Lower(s)[i..j] == Lower(s[i..j])
  {
  }

  /** Lower-casing twice is lower-casing once. */
  lemma LowerIdempotent(s: string)
    ensures Lower(Lower(s)) == Lower(s)
  {
  }

  /** A one-character pattern is contained exactly when the character occurs. */
  lemma ContainsChar(s: string, c: char)
    ensures Contains(s, [c]) <==> c in s
  {
    if c in s {
      var i :| 0 <= i < |s| && s[i] == c;
      assert s[i..i + 1] == [c];
      assert ContainsAt(s, [c], i);
    }
    if Contains(s, [c]) {
      ContainsFirstChar(s, [c]);
    }
  }

  /** A string without the separator splits into itself alone. */
  lemma {:induction false} SplitAbsent(s: string, sep: string)
    requires |sep| > 0 && !Contains(s, sep)
    ensures Split(s, sep) == [s]
    decreases |s|
  {
    if |s| >= |sep| {
      assert !ContainsAt(s, sep, 0);
      if Contains(s[1..], sep) {
        ContainsTail(s, sep);
      }
      SplitAbsent(s[1..], sep);
      assert [s[0]] + s[1..] == s;
    }
  }

  /**
   * No occurrence of `sep` starts inside `x` and runs on past its end into a `sep` written
   * right after it.
   */
  predicate NoStraddle(x: string, sep: string)
  {
    forall j :: 0 <= j < |x| && |x| < j + |sep| ==> !ContainsAt(x + sep, sep, j)
  }

  /** `NoStraddle` holds when the first character of `sep` is not among the last `|sep| - 1` of `x`. */
  lemma NoStraddleFirstChar(x: string, sep: string)
    requires |sep| > 0
    requires forall j :: 0 <= j < |x| && |x| < j + |sep| ==> x[j] != sep[0]
    ensures NoStraddle(x, sep)
  {
    forall j | 0 <= j < |x| && |x| < j + |sep| ensures !ContainsAt(x + sep, sep, j) {
      assert (x + sep)[j..j + |sep|][0] == x[j];
    }
  }

  /** `NoStraddle` holds when the second character of `sep` differs from its first and is absent from `x`. */
  lemma NoStraddleSecondChar(x: string, sep: string)
    requires |sep| >= 2 && sep[0] != sep[1] && sep[1] !in x
    ensures NoStraddle(x, sep)
  {
    forall j | 0 <= j < |x| && |x| < j + |sep| ensures !ContainsAt(x + sep, sep, j) {
      assert (x + sep)[j..j + |sep|][1] == (x + sep)[j + 1];
    }
  }

  /** `NoStraddle` survives dropping a prefix. */
  lemma NoStraddleDrop(x: string, sep: string, n: nat)
    requires n <= |x| && NoStraddle(x, sep)
    ensures NoStraddle(x[n..], sep)
  {
    var y := x[n..];
    assert y + sep == (x + sep)[n..];
    forall j | 0 <= j < |y| && |y| < j + |sep| ensures !ContainsAt(y + sep, sep, j) {
      assert (y + sep)[j..j + |sep|] == (x + sep)[n + j..n + j + |sep|];
      assert !ContainsAt(x + sep, sep, n + j);
    }
  }

  /** Splitting `x + sep + t` cuts at the `sep` written between them when nothing straddles it. */
  lemma {:induction false} SplitConcat(x: string, sep: string, t: string)
    requires |sep| > 0 && NoStraddle(x, sep)
    ensures Split(x + sep + t, sep) == Split(x, sep) + Split(t, sep)
    decreases |x|
  {
    var s := x + sep + t;
    if x == [] {
      assert s == sep + t;
      assert s[..|sep|] == sep;
      assert s[|sep|..] == t;
    } else if s[..|sep|] == sep {
      if |x| < |sep| {
        assert (x + sep)[0..|sep|] == s[..|sep|];
        assert ContainsAt(x + sep, sep, 0);
      }
      assert x[..|sep|] == sep;
      NoStraddleDrop(x, sep, |sep|);
      SplitConcat(x[|sep|..], sep, t);
      SplitConcatAtSep(x, sep, t);
    } else {
      NoStraddleDrop(x, sep, 1);
      SplitConcat(x[1..], sep, t);
      SplitConcatAtChar(x, sep, t);
    }
  }

  /** One step of `SplitConcat` when `x` starts with `sep`. */
  lemma SplitConcatAtSep(x: string, sep: string, t: string)
    requires |sep| > 0 && |x| >= |sep| && x[..|sep|] == sep
    requires Split(x[|sep|..] + sep + t, sep) == Split(x[|sep|..], sep) + Split(t, sep)
    ensures Split(x + sep + t, sep) == Split(x, sep) + Split(t, sep)
  {
    var s := x + sep + t;
    assert s[..|sep|] == sep;
    assert s[|sep|..] == x[|sep|..] + sep + t;
  }

  /** One step of `SplitConcat` when `x + sep + t` does not start with `sep`. */
  lemma SplitConcatAtChar(x: string, sep: string, t: string)
    requires |sep| > 0 && x != [] && (x + sep + t)[..|sep|] != sep
    requires |x| >= |sep| ==> x[..|sep|] != sep
    requires Split(x[1..] + sep + t, sep) == Split(x[1..], sep) + Split(t, sep)
    ensures Split(x + sep + t, sep) == Split(x, sep) + Split(t, sep)
  {
    var s := x + sep + t;
    var y := x[1..];
    assert s[1..] == y + sep + t;
    assert s[0] == x[0];
    SplitUnfoldChar(s, sep);
    var a, b := Split(y, sep), Split(t, sep);
    if |x| < |sep| {
      assert Split(y, sep) == [y];
      assert [x[0]] + y == x;
      ConsHeadAppend(x[0], a, b);
    } else {
      SplitUnfoldChar(x, sep);
      ConsHeadAppend(x[0], a, b);
    }
  }

  /** `Split` on a text that does not start with the separator. */
  lemma SplitUnfoldChar(s: string, sep: string)
    requires |sep| > 0 && |s| >= |sep| && s[..|sep|] != sep
    ensures Split(s, sep) == [[s[0]] + Split(s[1..], sep)[0]] + Split(s[1..], sep)[1..]
  {
  }

  /** Growing the first piece of `a + b` is growing the first piece of `a`. */
  lemma ConsHeadAppend(c: char, a: seq<string>, b: seq<string>)
    requires |a| >= 1
    ensures [[c] + a[0]] + a[1..] + b == [[c] + (a + b)[0]] + (a + b)[1..]
  {
    assert (a + b)[0] == a[0];
    assert (a + b)[1..] == a[1..] + b;
  }

  /** The case used most: a separator whose first character does not occur in `x`. */
  lemma SplitAfterFirst(x: string, sep: string, t: string)
    requires |sep| > 0 && sep[0] !in x
    ensures Split(x + sep + t, sep) == [x] + Split(t, sep)
  {
    NoStraddleFirstChar(x, sep);
    SplitConcat(x, sep, t);
    if Contains(x, sep) {
      ContainsFirstChar(x, sep);
    }
    SplitAbsent(x, sep);
  }

  /** The piece between the first two separators, when the text before them holds no separator character. */
  lemma SplitSecondPiece(pre: string, sep: string, body: string, post: string)
    requires |sep| > 0 && sep[0] !in pre && sep[0] !in body
    ensures |Split(pre + sep + body + sep + post, sep)| >= 2
    ensures Split(pre + sep + body + sep + post, sep)[1] == body
  {
    assert pre + sep + body + sep + post == pre + sep + (body + sep + post);
    SplitAfterFirst(pre, sep, body + sep + post);
    SplitAfterFirst(body, sep, post);
  }

  /** The piece between the first two separators, when neither the text before them nor the piece holds or straddles one. */
  lemma SplitBetween(pre: string, sep: string, body: string, post: string)
    requires |sep| > 0 && !Contains(pre, sep) && NoStraddle(pre, sep)
    requires !Contains(body, sep) && NoStraddle(body, sep)
    ensures |Split(pre + sep + body + sep + post, sep)| >= 2
    ensures Split(pre + sep + body + sep + post, sep)[1] == body
  {
    assert pre + sep + body + sep + post == pre + sep + (body + sep + post);
    SplitConcat(pre, sep, body + sep + post);
    SplitConcat(body, sep, post);
    SplitAbsent(pre, sep);
    SplitAbsent(body, sep);
  }

  /** A text with a single separator in it, which nothing straddles, splits into the two sides. */
  lemma SplitOnce(pre: string, sep: string, body: string)
    requires |sep| > 0 && !Contains(pre, sep) && NoStraddle(pre, sep) && !Contains(body, sep)
    ensures Split(pre + sep + body, sep) == [pre, body]
  {
    SplitConcat(pre, sep, body);
    SplitAbsent(pre, sep);
    SplitAbsent(body, sep);
  }

  /** Cutting `x + [c] + y + [c] + z` at each `c`, when `c` occurs in neither `x` nor `y`, gives `x` and then `y`. */
  lemma SplitTwoGroups(x: string, c: char, y: string, z: string)
    requires c !in x && c !in y
    ensures |Split(x + [c] + y + [c] + z, [c])| >= 2
    ensures Split(x + [c] + y + [c] + z, [c])[0] == x && Split(x + [c] + y + [c] + z, [c])[1] == y
  {
    SplitSecondPiece(x, [c], y, z);
    assert x + [c] + y + [c] + z == x + [c] + (y + [c] + z);
    SplitAfterFirst(x, [c], y + [c] + z);
  }

  /** The last piece of a split is what follows the last separator. */
  lemma SplitLastAfter(x: string, sep: string, t: string)
    requires |sep| > 0 && !Contains(t, sep) && NoStraddle(x, sep)
    ensures |Split(x + sep + t, sep)| >= 2
    ensures Last(Split(x + sep + t, sep)) == t
  {
    SplitConcat(x, sep, t);
    SplitAbsent(t, sep);
  }

  /** `sep.join(xs).split(sep)` gives back `xs` when no piece contains or straddles `sep`. */
  lemma {:induction false} SplitOfJoin(xs: seq<string>, sep: string)
    requires |xs| >= 1 && |sep| > 0
    requires forall i :: 0 <= i < |xs| ==> !Contains(xs[i], sep) && NoStraddle(xs[i], sep)
    ensures Split(Join(xs, sep), sep) == xs
    decreases |xs|
  {
    SplitAbsent(xs[0], sep);
    if |xs| > 1 {
      SplitConcat(xs[0], sep, Join(xs[1..], sep));
      SplitOfJoin(xs[1..], sep);
    }
  }

  /** A character absent from the string is absent from every piece of its split. */
  lemma {:induction false} SplitPieceChars(s: string, sep: string, c: char)
    requires |sep| > 0 && c !in s
    ensures forall i :: 0 <= i < |Split(s, sep)| ==> c !in Split(s, sep)[i]
    decreases |s|
  {
    if |s| >= |sep| {
      if s[..|sep|] == sep {
        SplitPieceChars(s[|sep|..], sep, c);
      } else {
        SplitPieceChars(s[1..], sep, c);
      }
    }
  }

  /** No piece of a split on a single character contains that character. */
  lemma {:induction false} SplitCharFree(s: string, c: char)
    ensures forall i :: 0 <= i < |Split(s, [c])| ==> c !in Split(s, [c])[i]
    decreases |s|
  {
    if |s| >= 1 {
      SplitCharFree(s[1..], c);
    }
  }

  /** Putting a character in front of the first piece puts it in front of the join. */
  lemma JoinConsHead(c: char, xs: seq<string>, sep: string)
    requires |xs| >= 1
    ensures Join([[c] + xs[0]] + xs[1..], sep) == [c] + Join(xs, sep)
  {
    var ys := [[c] + xs[0]] + xs[1..];
    assert ys[1..] == xs[1..];
  }

  /** `s.replace(pat, with)` is `with.join(s.split(pat))`. */
  lemma {:induction false} ReplaceIsJoinSplit(s: string, pat: string, with: string)
    requires |pat| > 0
    ensures Replace(s, pat, with) == Join(Split(s, pat), with)
    decreases |s|
  {
    if |s| >= |pat| {
      if s[..|pat|] == pat {
        ReplaceIsJoinSplit(s[|pat|..], pat, with);
        var r := Split(s[|pat|..], pat);
        assert ([[]] + r)[1..] == r;
      } else {
        ReplaceIsJoinSplit(s[1..], pat, with);
        JoinConsHead(s[0], Split(s[1..], pat), with);
      }
    }
  }

  /** `s.replace(pat, with)` is `s` itself when `pat` does not occur. */
  lemma ReplaceAbsent(s: string, pat: string, with: string)
    requires |pat| > 0 && !Contains(s, pat)
    ensures Replace(s, pat, with) == s
  {
    ReplaceIsJoinSplit(s, pat, with);
    SplitAbsent(s, pat);
  }

  /** Replacing the pattern written after `x` when nothing straddles it. */
  lemma ReplaceConcat(x: string, pat: string, with: string, t: string)
    requires |pat| > 0 && NoStraddle(x, pat)
    ensures Replace(x + pat + t, pat, with) == Replace(x, pat, with) + with + Replace(t, pat, with)
  {
    ReplaceIsJoinSplit(x + pat + t, pat, with);
    ReplaceIsJoinSplit(x, pat, with);
    ReplaceIsJoinSplit(t, pat, with);
    SplitConcat(x, pat, t);
    JoinConcat(Split(x, pat), Split(t, pat), with);
  }

  /** Joining two non-empty lists puts the separator once between their joins. */
  lemma {:induction false} JoinConcat(xs: seq<string>, ys: seq<string>, sep: string)
    requires |xs| >= 1 && |ys| >= 1
    ensures Join(xs + ys, sep) == Join(xs, sep) + sep + Join(ys, sep)
    decreases |xs|
  {
    if |xs| > 1 {
      JoinConcat(xs[1..], ys, sep);
      assert (xs + ys)[1..] == xs[1..] + ys;
    } else {
      assert (xs + ys)[1..] == ys;
    }
  }

  /** Replacing one character by another maps the string character by character. */
  lemma {:induction false} ReplaceChar(s: string, a: char, b: char)
    ensures Replace(s, [a], [b]) == seq(|s|, i requires 0 <= i < |s| => if s[i] == a then b else s[i])
    decreases |s|
  {
    if |s| >= 1 {
      ReplaceChar(s[1..], a, b);
    }
  }

  /** Replacing a character by a different one leaves none of it. */
  lemma ReplaceCharRemoves(s: string, a: char, b: char)
    requires a != b
    ensures a !in Replace(s, [a], [b])
  {
    ReplaceChar(s, a, b);
  }

  /** A character that occurs in none of the pieces and not in the separator is absent from the join. */
  lemma {:induction false} JoinCharAbsent(xs: seq<string>, sep: string, c: char)
    requires c !in sep
    requires forall i :: 0 <= i < |xs| ==> c !in xs[i]
    ensures c !in Join(xs, sep)
    decreases |xs|
  {
    if |xs| > 1 {
      JoinCharAbsent(xs[1..], sep, c);
    }
  }

  /**
   * Splitting `p + sep.join(xs)` on a one-character separator `[c]`, where `sep` is `[c] + w`
   * and `c` occurs nowhere else, gives `p + xs[0]` followed by `w + xs[i]` for each later piece.
   */
  lemma {:induction false} SplitJoinChar(p: string, xs: seq<string>, c: char, w: string)
    requires |xs| >= 1 && c !in p && c !in w
    requires forall i :: 0 <= i < |xs| ==> c !in xs[i]
    ensures Split(p + Join(xs, [c] + w), [c])
      == [p + xs[0]] + seq(|xs| - 1, i requires 0 <= i < |xs| - 1 => w + xs[i + 1])
    decreases |xs|
  {
    if |xs| == 1 {
      ContainsChar(p + xs[0], c);
      SplitAbsent(p + xs[0], [c]);
    } else {
      var tail := xs[1..];
      var rest := Join(tail, [c] + w);
      assert p + Join(xs, [c] + w) == (p + xs[0]) + [c] + (w + rest);
      SplitAfterFirst(p + xs[0], [c], w + rest);
      SplitJoinChar(w, tail, c, w);
      var later := seq(|tail| - 1, i requires 0 <= i < |tail| - 1 => w + tail[i + 1]);
      var all := seq(|xs| - 1, i requires 0 <= i < |xs| - 1 => w + xs[i + 1]);
      assert all == [w + tail[0]] + later;
    }
  }

  /** Appending `t` to a join appends it to the last piece. */
  lemma {:induction false} JoinAppendLast(xs: seq<string>, sep: string, t: string)
    requires |xs| >= 1
    ensures Join(xs, sep) + t == Join(xs[..|xs| - 1] + [Last(xs) + t], sep)
    decreases |xs|
  {
    var ys := xs[..|xs| - 1] + [Last(xs) + t];
    if |xs| > 1 {
      var tail := xs[1..];
      JoinAppendLast(tail, sep, t);
      assert ys[0] == xs[0];
      assert ys[1..] == tail[..|tail| - 1] + [Last(tail) + t];
      calc {
        Join(xs, sep) + t;
        xs[0] + sep + Join(tail, sep) + t;
        xs[0] + sep + (Join(tail, sep) + t);
        ys[0] + sep + Join(ys[1..], sep);
        Join(ys, sep);
      }
    } else {
      assert ys == [xs[0] + t];
    }
  }

  /** `sep.join(s.split(sep))` gives back `s`: splitting loses nothing but the separators. */
  lemma {:induction false} JoinOfSplit(s: string, sep: string)
    requires |sep| > 0
    ensures Join(Split(s, sep), sep) == s
    decreases |s|
  {
    if |s| >= |sep| {
      if s[..|sep|] == sep {
        var rest := s[|sep|..];
        var r := Split(rest, sep);
        JoinOfSplit(rest, sep);
        assert Split(s, sep) == [[]] + r;
        assert ([[]] + r)[0] == [] && ([[]] + r)[1..] == r;
        calc {
          Join([[]] + r, sep);
          [] + sep + Join(r, sep);
          sep + rest;
          { assert s == s[..|sep|] + rest; }
          s;
        }
      } else {
        var rest := s[1..];
        var r := Split(rest, sep);
        JoinOfSplit(rest, sep);
        assert Split(s, sep) == [[s[0]] + r[0]] + r[1..];
        JoinConsHead(s[0], r, sep);
        assert [s[0]] + rest == s;
      }
    }
  }

  /** The last piece of a join ends it. */
  lemma {:induction false} JoinEndsWithLast(xs: seq<string>, sep: string)
    requires |xs| >= 1
    ensures EndsWith(Join(xs, sep), Last(xs))
    decreases |xs|
  {
    if |xs| > 1 {
      JoinEndsWithLast(xs[1..], sep);
      var j := Join(xs[1..], sep);
      assert Join(xs, sep) == (xs[0] + sep) + j;
      assert (xs[0] + sep + j)[|xs[0] + sep + j| - |Last(xs)|..] == j[|j| - |Last(xs)|..];
    }
  }

  /** An occurrence in `s` past its first position is an occurrence in `s[1..]`. */
  lemma ContainsDrop(s: string, pat: string)
    requires |s| > 0 && Contains(s, pat) && !ContainsAt(s, pat, 0)
    ensures Contains(s[1..], pat)
  {
    var i :| 0 <= i <= |s| - |pat| && ContainsAt(s, pat, i);
    assert s[1..][i - 1..i - 1 + |pat|] == s[i..i + |pat|];
    assert ContainsAt(s[1..], pat, i - 1);
  }

  /** A split has one piece exactly when the separator does not occur. */
  lemma {:induction false} SplitSingle(s: string, sep: string)
    requires |sep| > 0
    ensures |Split(s, sep)| == 1 <==> !Contains(s, sep)
    decreases |s|
  {
    if |s| >= |sep| {
      if s[..|sep|] == sep {
        assert ContainsAt(s, sep, 0);
      } else {
        SplitSingle(s[1..], sep);
        if Contains(s, sep) {
          ContainsDrop(s, sep);
        }
        if Contains(s[1..], sep) {
          ContainsTail(s, sep);
        }
      }
    }
  }

  /** The last piece of a split holds no separator: it is what follows the last occurrence. */
  lemma {:induction false} SplitLastFree(s: string, sep: string)
    requires |sep| > 0
    ensures !Contains(Last(Split(s, sep)), sep)
    decreases |s|
  {
    if |s| >= |sep| {
      if s[..|sep|] == sep {
        SplitLastFree(s[|sep|..], sep);
      } else {
        var rest := Split(s[1..], sep);
        if |rest| > 1 {
          SplitLastFree(s[1..], sep);
        } else {
          SplitSingle(s[1..], sep);
          SplitAbsent(s[1..], sep);
          assert [s[0]] + s[1..] == s;
          if Contains(s, sep) {
            ContainsDrop(s, sep);
          }
        }
      }
    }
  }

  /** `s.split(sep)[-1]` is a suffix of `s` and holds no separator. */
  lemma SplitLast(s: string, sep: string)
    requires |sep| > 0
    ensures EndsWith(s, Last(Split(s, sep))) && !Contains(Last(Split(s, sep)), sep)
  {
    JoinOfSplit(s, sep);
    JoinEndsWithLast(Split(s, sep), sep);
    SplitLastFree(s, sep);
  }

  /** When the separator occurs, the last piece of a split ends the string right after an occurrence of it. */
  lemma SplitLastAfterSep(s: string, sep: string)
    requires |sep| > 0 && Contains(s, sep)
    ensures EndsWith(s, sep + Last(Split(s, sep)))
  {
    SplitSingle(s, sep);
    JoinOfSplit(s, sep);
    JoinEndsWithSepLast(Split(s, sep), sep);
  }

  /** A join of two or more pieces ends with the separator and the last piece. */
  lemma {:induction false} JoinEndsWithSepLast(xs: seq<string>, sep: string)
    requires |xs| >= 2
    ensures EndsWith(Join(xs, sep), sep + Last(xs))
    decreases |xs|
  {
    var j := Join(xs[1..], sep);
    var t := sep + Last(xs);
    if |xs| == 2 {
      assert j == Last(xs);
      assert Join(xs, sep) == xs[0] + t;
      EndsWithConcat(xs[0], t);
    } else {
      JoinEndsWithSepLast(xs[1..], sep);
      assert Last(xs[1..]) == Last(xs);
      assert Join(xs, sep) == (xs[0] + sep) + j;
      assert (xs[0] + sep + j)[|xs[0] + sep + j| - |t|..] == j[|j| - |t|..];
    }
  }

  /** A pattern whose last character does not occur in `t` can only occur in `p + t` inside `p`. */
  lemma ContainsOnlyBefore(p: string, t: string, pat: string)
    requires |pat| > 0 && pat[|pat| - 1] !in t && !Contains(p, pat)
    ensures !Contains(p + t, pat)
  {
    if Contains(p + t, pat) {
      var i :| 0 <= i <= |p + t| - |pat| && ContainsAt(p + t, pat, i);
      assert (p + t)[i..i + |pat|][|pat| - 1] == (p + t)[i + |pat| - 1];
      if i + |pat| - 1 < |p| {
        assert (p + t)[i..i + |pat|] == p[i..i + |pat|];
        assert ContainsAt(p, pat, i);
      }
    }
  }
}
