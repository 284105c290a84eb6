/** The Python string operations the converter relies on: substring test,
    `str.replace`, `str.split` on one character, `str.join`, `str.strip`
    and `' ' * n`.  Strings are sequences of Unicode code points, as in
    Python 3. */
module Strings {

  /** `p` occurs in `s` starting at index `i`. */
  ghost predicate OccursAt(s: string, p: string, i: int) {
    0 <= i && i + |p| <= |s| && s[i..i + |p|] == p
  }

  predicate StartsWith(s: string, p: string) {
    |p| <= |s| && s[..|p|] == p
  }

  /** Python's substring test `p in s`. */
  function Contains(s: string, p: string): bool
    decreases |s|
  {
    StartsWith(s, p) || (|s| > 0 && Contains(s[1..], p))
  }

  /** The scanning definition of `Contains` agrees with "occurs at some index". */
  lemma {:induction false} ContainsIffOccurs(s: string, p: string)
    ensures Contains(s, p) <==> exists i :: OccursAt(s, p, i)
    decreases |s|
  {
    if StartsWith(s, p) {
      assert OccursAt(s, p, 0);
    } else if |s| > 0 {
      ContainsIffOccurs(s[1..], p);
      if Contains(s[1..], p) {
        var i :| OccursAt(s[1..], p, i);
        assert s[1..][i..i + |p|] == s[i + 1..i + 1 + |p|];
        assert OccursAt(s, p, i + 1);
      }
      if exists i :: OccursAt(s, p, i) {
        var i :| OccursAt(s, p, i);
        assert s[..|p|] == s[0..|p|];
        assert i != 0;
        assert s[1..][i - 1..i - 1 + |p|] == s[i..i + |p|];
        assert OccursAt(s[1..], p, i - 1);
      }
    }
  }

  /** Python's `s.replace(pat, rep)`: every occurrence of `pat`, scanning
      left to right without overlap, is replaced by `rep`. */
  function ReplaceAll(s: string, pat: string, rep: string): string
    requires |pat| > 0
    decreases |s|
  {
    if |s| < |pat| then s
    else if s[..|pat|] == pat then rep + ReplaceAll(s[|pat|..], pat, rep)
    else [s[0]] + ReplaceAll(s[1..], pat, rep)
  }

  /** Python's `s.split(c)`: the pieces between occurrences of `c`; never empty. */
  function Split(s: string, c: char): (r: seq<string>)
    ensures |r| > 0
    decreases |s|
  {
    if |s| == 0 then [""]
    else
      var rest := Split(s[1..], c);
      if s[0] == c then [""] + rest else [[s[0]] + rest[0]] + rest[1..]
  }

  /** Python's `sep.join(xs)`. */
  function Join(xs: seq<string>, sep: string): string
    decreases |xs|
  {
    if |xs| == 0 then ""
    else if |xs| == 1 then xs[0]
    else xs[0] + sep + Join(xs[1..], sep)
  }

  /** `[p + x for x in xs]`. */
  function PrefixEach(p: string, xs: seq<string>): (r: seq<string>)
    ensures |r| == |xs|
    decreases |xs|
  {
    if |xs| == 0 then [] else [p + xs[0]] + PrefixEach(p, xs[1..])
  }

  /** Python's `c * n` for a one-character string `c`: empty when `n <= 0`. */
  function Repeat(c: char, n: int): (r: string)
    decreases n
  {
    if n <= 0 then "" else [c] + Repeat(c, n - 1)
  }

  /** The characters for which Python's `str.isspace()` holds. */
  predicate IsSpace(ch: char) {
    || ch == ' '
    || ('\t' <= ch <= '\r')
    || ('\U{1C}' <= ch <= '\U{1F}')
    || ch == '\U{85}' || ch == '\U{A0}' || ch == '\U{1680}'
    || ('\U{2000}' <= ch <= '\U{200A}')
    || ch == '\U{2028}' || ch == '\U{2029}' || ch == '\U{202F}'
    || ch == '\U{205F}' || ch == '\U{3000}'
  }

  ghost predicate AllSpace(s: string) {
    forall k :: 0 <= k < |s| ==> IsSpace(s[k])
  }

  /** The length of the run of whitespace that starts `s`. */
  function LeadingSpaces(s: string): (n: nat)
    ensures n <= |s|
    ensures forall k :: 0 <= k < n ==> IsSpace(s[k])
    ensures n == |s| || !IsSpace(s[n])
    decreases |s|
  {
    if |s| > 0 && IsSpace(s[0]) then 1 + LeadingSpaces(s[1..]) else 0
  }

  /** The index at which the run of whitespace that ends `s` begins. */
  function TrailingStart(s: string): (n: nat)
    ensures n <= |s|
    ensures forall k :: n <= k < |s| ==> IsSpace(s[k])
    ensures n == 0 || !IsSpace(s[n - 1])
    decreases |s|
  {
    if |s| > 0 && IsSpace(s[|s| - 1]) then TrailingStart(s[..|s| - 1]) else |s|
  }

  /** Python's `s.strip()`: the part of `s` between its leading and its
      trailing whitespace. */
  function Strip(s: string): (r: string)
    ensures exists i :: OccursAt(s, r, i) && AllSpace(s[..i]) && AllSpace(s[i + |r|..])
    ensures r == [] || (!IsSpace(r[0]) && !IsSpace(r[|r| - 1]))
  {
    var i := LeadingSpaces(s);
    var j := TrailingStart(s[i..]);
    assert OccursAt(s, s[i..][..j], i);
    var u := s[i + j..];
    assert AllSpace(u) by {
      forall k | 0 <= k < |u| ensures IsSpace(u[k]) {
        assert u[k] == s[i..][j + k];
      }
    }
    s[i..][..j]
  }

  /** No piece of a split contains the separator. */
  lemma {:induction false} SplitPiecesFree(s: string, c: char)
    ensures forall k :: 0 <= k < |Split(s, c)| ==> c !in Split(s, c)[k]
    decreases |s|
  {
    if |s| > 0 {
      SplitPiecesFree(s[1..], c);
    }
  }

  /** A split has more than one piece exactly when the separator occurs. */
  lemma {:induction false} SplitSeveralIffSeparator(s: string, c: char)
    ensures |Split(s, c)| >= 2 <==> c in s
    decreases |s|
  {
    if |s| > 0 {
      SplitSeveralIffSeparator(s[1..], c);
      assert c in s <==> s[0] == c || c in s[1..];
    }
  }

  /** One step of `Split` on a string given as a first character and the rest. */
  lemma SplitCons(x: char, t: string, c: char)
    ensures Split([x] + t, c) ==
      if x == c then [""] + Split(t, c) else [[x] + Split(t, c)[0]] + Split(t, c)[1..]
  {
    assert ([x] + t)[0] == x && ([x] + t)[1..] == t;
  }

  lemma SplitFreeStep(x: char, t: string, pieces: seq<string>, rest: string, c: char)
    requires x != c && |pieces| > 0
    requires Split(t, c) == [rest + pieces[0]] + pieces[1..]
    ensures Split([x] + t, c) == [[x] + rest + pieces[0]] + pieces[1..]
  {
    SplitCons(x, t, c);
    assert [x] + (rest + pieces[0]) == [x] + rest + pieces[0];
  }

  /** A separator-free prefix glues onto the first piece. */
  lemma {:induction false} SplitFreePrefix(a: string, b: string, c: char)
    requires c !in a
    ensures Split(a + b, c) == [a + Split(b, c)[0]] + Split(b, c)[1..]
    decreases |a|
  {
    var pieces := Split(b, c);
    if |a| == 0 {
      assert a + b == b;
      assert a + pieces[0] == pieces[0];
      assert pieces == [pieces[0]] + pieces[1..];
    } else {
      assert a + b == [a[0]] + (a[1..] + b);
      assert a == [a[0]] + a[1..];
      SplitFreePrefix(a[1..], b, c);
      SplitFreeStep(a[0], a[1..] + b, pieces, a[1..], c);
    }
  }

  /** A string without the separator splits into itself alone. */
  lemma SplitFree(a: string, c: char)
    requires c !in a
    ensures Split(a, c) == [a]
  {
    SplitFreePrefix(a, "", c);
    assert a + "" == a;
  }

  /** Gluing a character onto the first piece commutes with appending pieces. */
  lemma GlueFirst(x: char, left: seq<string>, right: seq<string>)
    requires |left| > 0
    ensures [[x] + (left + right)[0]] + (left + right)[1..] == [[x] + left[0]] + left[1..] + right
  {
    assert (left + right)[0] == left[0];
    assert (left + right)[1..] == left[1..] + right;
  }

  lemma SplitConcatStep(x: char, t: string, a: string, b: string, c: char)
    requires Split(t, c) == Split(a, c) + Split(b, c)
    ensures Split([x] + t, c) == Split([x] + a, c) + Split(b, c)
  {
    if x == c {
      SplitConsSeparator(t, a, b, c);
    } else {
      SplitConsOther(x, t, a, b, c);
    }
  }

  lemma SplitConsSeparator(t: string, a: string, b: string, c: char)
    requires Split(t, c) == Split(a, c) + Split(b, c)
    ensures Split([c] + t, c) == Split([c] + a, c) + Split(b, c)
  {
    SplitCons(c, t, c);
    SplitCons(c, a, c);
  }

  lemma SplitConsOther(x: char, t: string, a: string, b: string, c: char)
    requires x != c
    requires Split(t, c) == Split(a, c) + Split(b, c)
    ensures Split([x] + t, c) == Split([x] + a, c) + Split(b, c)
  {
    var left, right := Split(a, c), Split(b, c);
    SplitCons(x, t, c);
    SplitCons(x, a, c);
    GlueFirst(x, left, right);
  }

  /** Splitting distributes over a separator occurrence. */
  lemma {:induction false} SplitConcat(a: string, b: string, c: char)
    ensures Split(a + [c] + b, c) == Split(a, c) + Split(b, c)
    decreases |a|
  {
    if |a| == 0 {
      assert a + [c] + b == [c] + b;
      SplitCons(c, b, c);
    } else {
      assert a + [c] + b == [a[0]] + (a[1..] + [c] + b);
      assert a == [a[0]] + a[1..];
      SplitConcat(a[1..], b, c);
      SplitConcatStep(a[0], a[1..] + [c] + b, a[1..], b, c);
    }
  }

  /** Joining pieces free of `c` with a separator `[c] + suffix` and splitting
      on `c` gives back the first piece and the others, each preceded by
      `suffix`. */
  lemma {:induction false} SplitJoin(xs: seq<string>, c: char, suffix: string)
    requires |xs| > 0
    requires forall k :: 0 <= k < |xs| ==> c !in xs[k]
    requires c !in suffix
    ensures Split(Join(xs, [c] + suffix), c) == [xs[0]] + PrefixEach(suffix, xs[1..])
    decreases |xs|
  {
    if |xs| == 1 {
      SplitFree(xs[0], c);
    } else {
      var tail := Join(xs[1..], [c] + suffix);
      SplitJoin(xs[1..], c, suffix);
      assert Join(xs, [c] + suffix) == xs[0] + [c] + (suffix + tail);
      SplitConcat(xs[0], suffix + tail, c);
      SplitFree(xs[0], c);
      SplitFreePrefix(suffix, tail, c);
      assert xs[1..][1..] == xs[2..];
    }
  }

  /** Replacing never introduces a character that neither the text nor the
      replacement holds. */
  lemma {:induction false} ReplaceAllChars(s: string, pat: string, rep: string, c: char)
    requires |pat| > 0 && c !in s && c !in rep
    ensures c !in ReplaceAll(s, pat, rep)
    decreases |s|
  {
    if |s| >= |pat| {
      if s[..|pat|] == pat {
        ReplaceAllChars(s[|pat|..], pat, rep, c);
      } else {
        ReplaceAllChars(s[1..], pat, rep, c);
      }
    }
  }

  /** Replacing every occurrence of a character by text without it removes
      the character. */
  lemma {:induction false} ReplaceCharRemoves(s: string, c: char, rep: string)
    requires c !in rep
    ensures c !in ReplaceAll(s, [c], rep)
    decreases |s|
  {
    if |s| >= 1 {
      ReplaceCharRemoves(s[1..], c, rep);
      if s[..1] != [c] {
        assert s[0] != c;
      }
    }
  }

  /** Gluing text onto the first piece glues it onto the front of the join. */
  lemma JoinFirst(p: string, xs: seq<string>, sep: string)
    requires |xs| > 0
    ensures Join([p + xs[0]] + xs[1..], sep) == p + Join(xs, sep)
  {
    var ys := [p + xs[0]] + xs[1..];
    assert ys[1..] == xs[1..];
  }

  /** Replacing a character is splitting on it and joining with the replacement. */
  lemma {:induction false} ReplaceCharJoin(s: string, c: char, rep: string)
    ensures ReplaceAll(s, [c], rep) == Join(Split(s, c), rep)
    decreases |s|
  {
    if |s| > 0 {
      ReplaceCharJoin(s[1..], c, rep);
      var rest := Split(s[1..], c);
      if s[0] == c {
        assert s[..1] == [c];
        assert ([""] + rest)[1..] == rest;
      } else {
        assert s[..1] != [c];
        JoinFirst([s[0]], rest, rep);
      }
    }
  }

  lemma {:induction false} PrefixEachEmpty(xs: seq<string>)
    ensures PrefixEach("", xs) == xs
    decreases |xs|
  {
    if |xs| > 0 {
      PrefixEachEmpty(xs[1..]);
      assert "" + xs[0] == xs[0];
      assert xs == [xs[0]] + xs[1..];
    }
  }

  /** Splitting undoes joining with the separator, for pieces without it. */
  lemma SplitJoinFree(xs: seq<string>, c: char)
    requires |xs| > 0
    requires forall k :: 0 <= k < |xs| ==> c !in xs[k]
    ensures Split(Join(xs, [c]), c) == xs
  {
    SplitJoin(xs, c, "");
    assert [c] + "" == [c];
    PrefixEachEmpty(xs[1..]);
    assert xs == [xs[0]] + xs[1..];
  }

  /** A run of one character can be extended at either end. */
  lemma {:induction false} RepeatSnoc(c: char, n: int)
    ensures Repeat(c, n) + [c] == [c] + Repeat(c, n)
    decreases n
  {
    if n > 0 {
      RepeatSnoc(c, n - 1);
    }
  }

  /** Joining two non-empty lists puts one separator between their joins. */
  lemma {:induction false} JoinAppend(xs: seq<string>, ys: seq<string>, sep: string)
    requires |xs| > 0 && |ys| > 0
    ensures Join(xs + ys, sep) == Join(xs, sep) + sep + Join(ys, sep)
    decreases |xs|
  {
    if |xs| == 1 {
      assert (xs + ys)[1..] == ys;
    } else {
      JoinAppend(xs[1..], ys, sep);
      assert (xs + ys)[1..] == xs[1..] + ys;
    }
  }

  lemma JoinCons(x: string, ys: seq<string>, sep: string)
    requires |ys| > 0
    ensures Join([x] + ys, sep) == x + sep + Join(ys, sep)
  {
    assert ([x] + ys)[1..] == ys;
  }

  lemma JoinMiddle(pre: seq<string>, mid: string, post: seq<string>, sep: string)
    requires |pre| > 0 && |post| > 0
    ensures Join(pre + [mid] + post, sep) == Join(pre, sep) + sep + (mid + sep + Join(post, sep))
  {
    var tail := [mid] + post;
    assert pre + [mid] + post == pre + tail;
    JoinAppend(pre, tail, sep);
    JoinCons(mid, post, sep);
  }

  /** Concatenation of sequences is associative. */
  lemma Assoc<T>(a: seq<T>, b: seq<T>, c: seq<T>)
    ensures a + (b + c) == a + b + c
  {
  }

  /** Lines joined with `c` split back into themselves, except that the one
      line allowed to contain `c` splits into its own pieces. */
  lemma SplitJoinMiddle(pre: seq<string>, mid: string, post: seq<string>, c: char)
    requires |pre| > 0 && |post| > 0
    requires forall k :: 0 <= k < |pre| ==> c !in pre[k]
    requires forall k :: 0 <= k < |post| ==> c !in post[k]
    ensures Split(Join(pre + [mid] + post, [c]), c) == pre + Split(mid, c) + post
  {
    var a, b := Join(pre, [c]), Join(post, [c]);
    JoinMiddle(pre, mid, post, [c]);
    SplitConcat(a, mid + [c] + b, c);
    SplitConcat(mid, b, c);
    SplitJoinFree(pre, c);
    SplitJoinFree(post, c);
    Assoc(pre, Split(mid, c), post);
  }
}
