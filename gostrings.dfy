/**
  The parts of Go's `strings` package that the broker relies on: TrimSpace,
  Split and SplitN with a one-character separator, and Join. Go strings are
  modelled as sequences of characters.
 */
module GoStrings {
  import opened Wrappers

  /** Go's unicode.IsSpace: the Unicode White_Space property. */
  predicate IsSpace(c: char) {
    || c == '\t' || c == '\n' || c == '\U{000B}' || c == '\U{000C}' || c == '\r' || c == ' '
    || c == '\U{0085}' || c == '\U{00A0}' || c == '\U{1680}'
    || ('\U{2000}' <= c <= '\U{200A}')
    || c == '\U{2028}' || c == '\U{2029}' || c == '\U{202F}' || c == '\U{205F}' || c == '\U{3000}'
  }

  ghost predicate AllSpace(s: string) {
    forall i :: 0 <= i < |s| ==> IsSpace(s[i])
  }

  lemma AllSpaceConcat(a: string, b: string)
    requires AllSpace(a) && AllSpace(b)
    ensures AllSpace(a + b)
  {
    forall i | 0 <= i < |a + b| ensures IsSpace((a + b)[i]) {
      if i >= |a| { assert (a + b)[i] == b[i - |a|]; }
    }
  }

  /** No white space at either end. */
  ghost predicate Trimmed(s: string) {
    s == [] || (!IsSpace(s[0]) && !IsSpace(s[|s| - 1]))
  }

  /** Drops the leading white space: what is left is a suffix of `s`. */
  function TrimLeft(s: string): (r: string)
    ensures |r| <= |s| && r == s[|s| - |r|..]
    ensures AllSpace(s[..|s| - |r|])
    ensures r == [] || !IsSpace(r[0])
  {
    if s != [] && IsSpace(s[0]) then
      var r := TrimLeft(s[1..]);
      SpaceBeforeSuffix(s, r);
      r
    else s
  }

  /** A suffix of the tail after a white-space character, reached over white space only. */
  lemma SpaceBeforeSuffix(s: string, r: string)
    requires s != [] && IsSpace(s[0])
    requires |r| <= |s| - 1 && r == s[1..][|s| - 1 - |r|..] && AllSpace(s[1..][..|s| - 1 - |r|])
    ensures r == s[|s| - |r|..] && AllSpace(s[..|s| - |r|])
  {
    var j := |s| - |r|;
    forall i | 0 <= i < j
      ensures IsSpace(s[..j][i])
    {
      if i > 0 {
        assert s[..j][i] == s[1..][..j - 1][i - 1];
      }
    }
  }

  /** Drops the trailing white space: what is left is a prefix of `s`. */
  function TrimRight(s: string): (r: string)
    ensures |r| <= |s| && r == s[..|r|]
    ensures AllSpace(s[|r|..])
    ensures r == [] || !IsSpace(r[|r| - 1])
  {
    if s != [] && IsSpace(s[|s| - 1]) then
      var r := TrimRight(s[..|s| - 1]);
      SpaceAfterPrefix(s, r);
      r
    else s
  }

  /** A prefix of the text before a trailing white-space character, followed by white space only. */
  lemma SpaceAfterPrefix(s: string, r: string)
    requires s != [] && IsSpace(s[|s| - 1])
    requires |r| <= |s| - 1 && r == s[..|s| - 1][..|r|] && AllSpace(s[..|s| - 1][|r|..])
    ensures r == s[..|r|] && AllSpace(s[|r|..])
  {
    var n := |s| - 1;
    forall i | 0 <= i < |s| - |r|
      ensures IsSpace(s[|r|..][i])
    {
      if |r| + i < n {
        assert s[|r|..][i] == s[..n][|r|..][i];
      }
    }
  }

  /** Go's strings.TrimSpace. */
  function TrimSpace(s: string): (r: string)
    ensures |r| <= |s|
    ensures Trimmed(r)
  {
    TrimRight(TrimLeft(s))
  }

  lemma {:induction false} TrimLeftPadded(pre: string, t: string)
    requires AllSpace(pre)
    requires t == [] || !IsSpace(t[0])
    ensures TrimLeft(pre + t) == t
  {
    if pre != [] {
      assert (pre + t)[1..] == pre[1..] + t;
      TrimLeftPadded(pre[1..], t);
    }
  }

  lemma {:induction false} TrimRightPadded(t: string, post: string)
    requires AllSpace(post)
    requires t == [] || !IsSpace(t[|t| - 1])
    ensures TrimRight(t + post) == t
  {
    if post != [] {
      var p := post[..|post| - 1];
      assert (t + post)[..|t + post| - 1] == t + p;
      TrimRightPadded(t, p);
    }
  }

  /**
    TrimSpace removes exactly the surrounding white space: a text with no
    white space at either end, wrapped in white space, trims back to itself.
   */
  lemma TrimSpacePadded(pre: string, m: string, post: string)
    requires AllSpace(pre) && AllSpace(post) && Trimmed(m)
    ensures TrimSpace(pre + m + post) == m
  {
    if m == [] {
      assert pre + m + post == pre + post + [];
      TrimLeftPadded(pre + post, []);
    } else {
      assert pre + m + post == pre + (m + post);
      TrimLeftPadded(pre, m + post);
      TrimRightPadded(m, post);
    }
  }

  lemma TrimLeftRemoves(s: string) returns (pre: string)
    ensures AllSpace(pre) && s == pre + TrimLeft(s)
  {
    var l := TrimLeft(s);
    pre := s[..|s| - |l|];
    Halves(s, |s| - |l|);
  }

  /** A string is what precedes position `k` followed by the rest. */
  lemma Halves(s: string, k: nat)
    requires k <= |s|
    ensures s == s[..k] + s[k..]
  {
  }

  lemma TrimRightRemoves(s: string) returns (post: string)
    ensures AllSpace(post) && s == TrimRight(s) + post
  {
    var r := TrimRight(s);
    post := s[|r|..];
    Halves(s, |r|);
  }

  /** Every string is its trimmed form wrapped in the white space TrimSpace removed. */
  lemma TrimSpaceDecomposes(s: string) returns (pre: string, post: string)
    ensures AllSpace(pre) && AllSpace(post)
    ensures s == pre + TrimSpace(s) + post
  {
    pre := TrimLeftRemoves(s);
    var l := TrimLeft(s);
    post := TrimRightRemoves(l);
    Assoc(pre, TrimRight(l), post);
  }

  lemma Assoc(a: string, b: string, c: string)
    ensures a + (b + c) == a + b + c
  {
  }

  lemma TrimSpaceIdempotent(s: string)
    ensures TrimSpace(TrimSpace(s)) == TrimSpace(s)
  {
    TrimSpacePadded([], TrimSpace(s), []);
    assert [] + TrimSpace(s) + [] == TrimSpace(s);
  }

  lemma Regroup(p: string, a: string, m: string, b: string, q: string)
    ensures p + (a + m + b) + q == (p + a) + m + (b + q)
  {
  }

  /** Adding white space around a string does not change what TrimSpace returns. */
  lemma TrimSpaceIgnoresPadding(pre: string, s: string, post: string)
    requires AllSpace(pre) && AllSpace(post)
    ensures TrimSpace(pre + s + post) == TrimSpace(s)
  {
    var a, b := TrimSpaceDecomposes(s);
    var m := TrimSpace(s);
    AllSpaceConcat(pre, a);
    AllSpaceConcat(b, post);
    Regroup(pre, a, m, b, post);
    TrimSpacePadded(pre + a, m, b + post);
  }

  /** The index of the first occurrence of `c` in `s`, as Go's strings.Index. */
  function IndexOf(s: string, c: char): (r: Option<nat>)
    ensures r.None? <==> c !in s
    ensures r.Some? ==> r.value < |s| && s[r.value] == c && c !in s[..r.value]
  {
    if s == [] then None
    else if s[0] == c then Some(0)
    else match IndexOf(s[1..], c)
      case None => None
      case Some(k) =>
        assert s[..k + 1] == [s[0]] + s[1..][..k];
        Some(k + 1)
  }

  /** The parts of `a c b` around the middle character. */
  lemma Pieces(a: string, c: char, b: string)
    ensures (a + [c] + b)[..|a|] == a && (a + [c] + b)[|a|] == c && (a + [c] + b)[|a| + 1..] == b
  {
  }

  /** A string is what precedes position `k`, the character there, and what follows. */
  lemma CutAt(s: string, k: nat)
    requires k < |s|
    ensures s == s[..k] + [s[k]] + s[k + 1..]
  {
  }

  lemma IndexOfAfter(a: string, c: char, b: string)
    requires c !in a
    ensures IndexOf(a + [c] + b, c) == Some(|a|)
  {
    Pieces(a, c, b);
  }

  /** Go's strings.Join. */
  function Join(elems: seq<string>, sep: string): string
  {
    if |elems| == 0 then ""
    else if |elems| == 1 then elems[0]
    else elems[0] + sep + Join(elems[1..], sep)
  }

  /** Go's strings.Split with a one-character separator: split at every occurrence. */
  function Split(s: string, sep: char): (r: seq<string>)
    ensures |r| >= 1
    decreases |s|
  {
    match IndexOf(s, sep)
    case None => [s]
    case Some(k) => [s[..k]] + Split(s[k + 1..], sep)
  }

  /**
    Go's strings.SplitN with a one-character separator and n > 0: at most `n`
    pieces, the last of which is the unsplit remainder.
   */
  function SplitN(s: string, sep: char, n: nat): (r: seq<string>)
    requires n > 0
    ensures 1 <= |r| <= n
    decreases n
  {
    if n == 1 then [s]
    else match IndexOf(s, sep)
      case None => [s]
      case Some(k) => [s[..k]] + SplitN(s[k + 1..], sep, n - 1)
  }

  /** One step of Split: the text before the first separator, then the split of what follows it. */
  lemma SplitStep(s: string, sep: char)
    requires sep in s
    ensures var k := IndexOf(s, sep).value;
      Split(s, sep) == [s[..k]] + Split(s[k + 1..], sep) && sep !in s[..k] && s == s[..k] + [sep] + s[k + 1..]
  {
    CutAt(s, IndexOf(s, sep).value);
  }

  /** One step of SplitN, as for Split, with one piece fewer left for the rest. */
  lemma SplitNStep(s: string, sep: char, n: nat)
    requires sep in s && n > 1
    ensures var k := IndexOf(s, sep).value;
      SplitN(s, sep, n) == [s[..k]] + SplitN(s[k + 1..], sep, n - 1) && sep !in s[..k] && s == s[..k] + [sep] + s[k + 1..]
  {
    CutAt(s, IndexOf(s, sep).value);
  }

  /** Split loses nothing: its pieces join back to the string. */
  lemma {:induction false} JoinSplit(s: string, sep: char)
    ensures Join(Split(s, sep), [sep]) == s
    decreases |s|
  {
    if sep in s {
      var k := IndexOf(s, sep).value;
      SplitStep(s, sep);
      JoinSplit(s[k + 1..], sep);
      JoinCons(s[..k], Split(s[k + 1..], sep), [sep]);
    }
  }

  /** No piece of a split holds the separator. */
  lemma {:induction false} SplitFree(s: string, sep: char)
    ensures forall i :: 0 <= i < |Split(s, sep)| ==> sep !in Split(s, sep)[i]
    decreases |s|
  {
    if sep !in s {
      assert Split(s, sep) == [s];
    } else {
      var k := IndexOf(s, sep).value;
      var rest := Split(s[k + 1..], sep);
      SplitFree(s[k + 1..], sep);
      ConsFree(s[..k], rest, sep, 0);
      SplitStep(s, sep);
    }
  }

  /**
    Putting a separator-free piece in front of a list whose pieces are
    separator-free, except perhaps the last `spare` of them, keeps that so.
   */
  lemma ConsFree(x: string, xs: seq<string>, sep: char, spare: nat)
    requires sep !in x
    requires forall i :: 0 <= i < |xs| - spare ==> sep !in xs[i]
    ensures forall i :: 0 <= i < |[x] + xs| - spare ==> sep !in ([x] + xs)[i]
  {
    forall i | 0 <= i < |[x] + xs| - spare
      ensures sep !in ([x] + xs)[i]
    {
      if i > 0 {
        assert ([x] + xs)[i] == xs[i - 1];
      }
    }
  }

  /** SplitN loses nothing: its pieces join back to the string. */
  lemma {:induction false} JoinSplitN(s: string, sep: char, n: nat)
    requires n > 0
    ensures Join(SplitN(s, sep, n), [sep]) == s
    decreases n
  {
    if n > 1 && sep in s {
      var k := IndexOf(s, sep).value;
      SplitNStep(s, sep, n);
      JoinSplitN(s[k + 1..], sep, n - 1);
      JoinCons(s[..k], SplitN(s[k + 1..], sep, n - 1), [sep]);
    }
  }

  /** Every piece of SplitN but the last is separator-free. */
  lemma {:induction false} SplitNFree(s: string, sep: char, n: nat)
    requires n > 0
    ensures forall i :: 0 <= i < |SplitN(s, sep, n)| - 1 ==> sep !in SplitN(s, sep, n)[i]
    decreases n
  {
    if n == 1 || sep !in s {
      assert |SplitN(s, sep, n)| == 1;
    } else {
      var k := IndexOf(s, sep).value;
      var rest := SplitN(s[k + 1..], sep, n - 1);
      SplitNFree(s[k + 1..], sep, n - 1);
      ConsFree(s[..k], rest, sep, 1);
      SplitNStep(s, sep, n);
    }
  }

  /** Joining a list with one more element in front puts that element and a separator first. */
  lemma JoinCons(x: string, xs: seq<string>, sep: string)
    requires |xs| >= 1
    ensures Join([x] + xs, sep) == x + sep + Join(xs, sep)
  {
    assert ([x] + xs)[1..] == xs;
  }

  /** SplitN into two pieces cuts at the first separator, if there is one. */
  lemma SplitNTwo(s: string, sep: char)
    ensures sep !in s ==> SplitN(s, sep, 2) == [s]
    ensures sep in s ==> SplitN(s, sep, 2) == [s[..IndexOf(s, sep).value], s[IndexOf(s, sep).value + 1..]]
  {
    if sep in s {
      var k := IndexOf(s, sep).value;
      assert SplitN(s[k + 1..], sep, 1) == [s[k + 1..]];
    }
  }

  /** Splitting a string of the form `a sep b`, with no separator in `a`, peels off `a`. */
  lemma SplitAt(a: string, sep: char, b: string)
    requires sep !in a
    ensures Split(a + [sep] + b, sep) == [a] + Split(b, sep)
  {
    IndexOfAfter(a, sep, b);
    Pieces(a, sep, b);
  }

  lemma SplitNAt(a: string, sep: char, b: string, n: nat)
    requires sep !in a && n > 1
    ensures SplitN(a + [sep] + b, sep, n) == [a] + SplitN(b, sep, n - 1)
  {
    IndexOfAfter(a, sep, b);
    Pieces(a, sep, b);
  }

  /**
    The pieces of a split are determined by the string: two lists of
    separator-free pieces that join to the same string are equal.
   */
  lemma {:induction false} JoinInjective(xs: seq<string>, ys: seq<string>, sep: char)
    requires |xs| >= 1 && |ys| >= 1
    requires forall i :: 0 <= i < |xs| ==> sep !in xs[i]
    requires forall i :: 0 <= i < |ys| ==> sep !in ys[i]
    requires Join(xs, [sep]) == Join(ys, [sep])
    ensures xs == ys
  {
    var s := Join(xs, [sep]);
    if |xs| == 1 && |ys| == 1 {
    } else if |xs| == 1 || |ys| == 1 {
      // one side has no separator at all, the other has one
      assert false;
    } else {
      var tx, ty := Join(xs[1..], [sep]), Join(ys[1..], [sep]);
      assert s == xs[0] + [sep] + tx;
      assert s == ys[0] + [sep] + ty;
      IndexOfAfter(xs[0], sep, tx);
      IndexOfAfter(ys[0], sep, ty);
      assert |xs[0]| == |ys[0]|;
      assert xs[0] == s[..|xs[0]|] == ys[0];
      assert tx == s[|xs[0]| + 1..] == ty;
      JoinInjective(xs[1..], ys[1..], sep);
      assert xs == [xs[0]] + xs[1..];
      assert ys == [ys[0]] + ys[1..];
    }
  }

  /** Split undoes Join when no piece contains the separator. */
  lemma SplitJoin(xs: seq<string>, sep: char)
    requires |xs| >= 1
    requires forall i :: 0 <= i < |xs| ==> sep !in xs[i]
    ensures Split(Join(xs, [sep]), sep) == xs
  {
    JoinSplit(Join(xs, [sep]), sep);
    SplitFree(Join(xs, [sep]), sep);
    JoinInjective(Split(Join(xs, [sep]), sep), xs, sep);
  }

  lemma {:induction false} JoinAppend(xs: seq<string>, x: string, sep: string)
    requires |xs| >= 1
    ensures Join(xs + [x], sep) == Join(xs, sep) + sep + x
  {
    if |xs| == 1 {
      assert (xs + [x])[1..] == [x];
    } else {
      assert (xs + [x])[1..] == xs[1..] + [x];
      JoinAppend(xs[1..], x, sep);
    }
  }
}
