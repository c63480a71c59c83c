/**
 * The JavaScript string builtins the chat server relies on, written out as
 * Dafny functions: `trim`, `startsWith`, `slice`, `split(sep)`,
 * `split(sep, limit)` and `replace(/\s+/g, ' ')`.
 * Strings are sequences of characters; no encoding is modelled.
 */
module JsString {

  /** The characters matched by `\s` and removed by `trim` in ECMAScript:
      WhiteSpace (tab, vertical tab, form feed, space, no-break space, the
      byte order mark and the Zs category) and LineTerminator. */
  predicate IsWhitespace(c: char) {
    || c == '\t' || c == '\n' || c == '\U{000B}' || c == '\U{000C}' || c == '\r'
    || c == ' ' || c == '\U{00A0}' || c == '\U{1680}'
    || ('\U{2000}' <= c <= '\U{200A}')
    || c == '\U{2028}' || c == '\U{2029}' || c == '\U{202F}' || c == '\U{205F}'
    || c == '\U{3000}' || c == '\U{FEFF}'
  }

  predicate AllWhitespace(s: string) {
    forall i :: 0 <= i < |s| ==> IsWhitespace(s[i])
  }

  /** The non-whitespace characters of `s`, in order. */
  function Visible(s: string): string {
    if s == [] then []
    else if IsWhitespace(s[0]) then Visible(s[1..])
    else [s[0]] + Visible(s[1..])
  }

  lemma {:induction false} VisibleAppend(a: string, b: string)
    ensures Visible(a + b) == Visible(a) + Visible(b)
  {
    if a != [] {
      assert (a + b)[0] == a[0];
      assert (a + b)[1..] == a[1..] + b;
      VisibleAppend(a[1..], b);
    } else {
      assert a + b == b;
    }
  }

  lemma {:induction false} VisibleEmpty(s: string)
    ensures Visible(s) == [] <==> AllWhitespace(s)
  {
    if s != [] {
      VisibleEmpty(s[1..]);
      assert AllWhitespace(s) <==> IsWhitespace(s[0]) && AllWhitespace(s[1..]);
    }
  }

  /** Neither end of `s` is whitespace. */
  predicate Trimmed(s: string) {
    s == [] || (!IsWhitespace(s[0]) && !IsWhitespace(s[|s| - 1]))
  }

  /** `s.trimStart()`: the suffix left after dropping leading whitespace. */
  function TrimStart(s: string): (r: string)
    ensures |r| <= |s| && r == s[|s| - |r|..]
    ensures AllWhitespace(s[..|s| - |r|])
    ensures r == [] || !IsWhitespace(r[0])
  {
    if s != [] && IsWhitespace(s[0]) then TrimStart(s[1..]) else s
  }

  /** `s.trimEnd()`: the prefix left after dropping trailing whitespace. */
  function TrimEnd(s: string): (r: string)
    ensures |r| <= |s| && r == s[..|r|]
    ensures AllWhitespace(s[|r|..])
    ensures r == [] || !IsWhitespace(r[|r| - 1])
  {
    if s != [] && IsWhitespace(s[|s| - 1]) then TrimEnd(s[..|s| - 1]) else s
  }

  /** The number of leading whitespace characters of `s`. */
  function LeadingWhitespace(s: string): (k: nat)
    ensures k <= |s| && AllWhitespace(s[..k])
  {
    |s| - |TrimStart(s)|
  }

  /** `s.trim()`: `s` without its leading and trailing whitespace. */
  function Trim(s: string): (r: string)
    ensures Trimmed(r)
    ensures LeadingWhitespace(s) + |r| <= |s|
    ensures r == s[LeadingWhitespace(s)..LeadingWhitespace(s) + |r|]
    ensures AllWhitespace(s[LeadingWhitespace(s) + |r|..])
  {
    var a := TrimStart(s);
    var r := TrimEnd(a);
    var k := LeadingWhitespace(s);
    assert k == |s| - |a|;
    TrimBothEnds(s, k, a, r);
    r
  }

  /** Cutting a prefix `r` off the suffix `a` of `s` that starts at `k`. */
  lemma TrimBothEnds(s: string, k: nat, a: string, r: string)
    requires k <= |s| && a == s[k..]
    requires |r| <= |a| && r == a[..|r|]
    requires AllWhitespace(a[|r|..])
    requires a == [] || !IsWhitespace(a[0])
    requires r == [] || !IsWhitespace(r[|r| - 1])
    ensures Trimmed(r)
    ensures k + |r| <= |s|
    ensures r == s[k..k + |r|]
    ensures AllWhitespace(s[k + |r|..])
  {
    SlicesOfSuffix(s, k, |r|);
    if r != [] {
      assert r[0] == a[0];
    }
  }

  lemma SlicesOfSuffix<T>(s: seq<T>, i: nat, m: nat)
    requires i + m <= |s|
    ensures s[i..][..m] == s[i..i + m]
    ensures s[i..][m..] == s[i + m..]
  {
  }

  lemma {:induction false} TrimStartKeepsVisible(s: string)
    ensures Visible(TrimStart(s)) == Visible(s)
  {
    if s != [] && IsWhitespace(s[0]) {
      TrimStartKeepsVisible(s[1..]);
    }
  }

  lemma {:induction false} TrimEndKeepsVisible(s: string)
    ensures Visible(TrimEnd(s)) == Visible(s)
  {
    if s != [] && IsWhitespace(s[|s| - 1]) {
      var init := s[..|s| - 1];
      TrimEndKeepsVisible(init);
      assert s == init + [s[|s| - 1]];
      VisibleAppend(init, [s[|s| - 1]]);
      assert Visible([s[|s| - 1]]) == [];
    }
  }

  /** Trimming removes whitespace only. */
  lemma TrimKeepsVisible(s: string)
    ensures Visible(Trim(s)) == Visible(s)
  {
    TrimStartKeepsVisible(s);
    TrimEndKeepsVisible(TrimStart(s));
  }

  /** Only a string of whitespace trims to the empty string. */
  lemma TrimEmpty(s: string)
    ensures (Trim(s) == []) <==> AllWhitespace(s)
  {
    var r := Trim(s);
    TrimKeepsVisible(s);
    VisibleEmpty(s);
    VisibleEmpty(r);
    assert r != [] ==> !IsWhitespace(r[0]);
  }

  /** A string that ends with a visible character loses only its leading
      whitespace to trimming, and is not trimmed to nothing. */
  lemma TrimVisibleEnd(s: string)
    requires s != [] && !IsWhitespace(s[|s| - 1])
    ensures Trim(s) != []
    ensures LeadingWhitespace(s) + |Trim(s)| == |s|
    ensures s[LeadingWhitespace(s)..] == Trim(s)
  {
  }

  /** A string ending in a visible character is its first `k` characters,
      then whitespace, then what trimming leaves of the rest. */
  lemma SplitOffPadding(t: string, k: nat)
    requires k < |t| && !IsWhitespace(t[|t| - 1])
    ensures exists pad :: AllWhitespace(pad) && t == t[..k] + pad + Trim(t[k..])
  {
    var after := t[k..];
    assert after[|after| - 1] == t[|t| - 1];
    TrimVisibleEnd(after);
    var n := LeadingWhitespace(after);
    var pad := after[..n];
    Halves(t, k);
    Halves(after, n);
    Assoc(t[..k], pad, Trim(after));
  }

  /** A string that starts with a visible character loses only trailing
      whitespace to trimming. */
  lemma TrimVisibleStart(s: string)
    requires s != [] && !IsWhitespace(s[0])
    ensures Trim(s) != [] && |Trim(s)| <= |s|
    ensures s == Trim(s) + s[|Trim(s)|..]
    ensures AllWhitespace(s[|Trim(s)|..])
  {
    var r := Trim(s);
    var k := LeadingWhitespace(s);
    assert k == 0;
    TrimEmpty(s);
    Halves(s, |r|);
  }

  lemma NotInSuffix<T>(s: seq<T>, m: nat, x: T)
    requires m <= |s| && x !in s
    ensures x !in s[m..]
  { }

  lemma Halves<T>(s: seq<T>, n: nat)
    requires n <= |s|
    ensures s[..n] + s[n..] == s
  {
  }

  lemma Assoc<T>(a: seq<T>, b: seq<T>, c: seq<T>)
    ensures a + (b + c) == a + b + c
  {
  }

  lemma TrimOfTrimmed(s: string)
    requires Trimmed(s)
    ensures Trim(s) == s
  {
  }

  /** `s.startsWith(p)`. */
  predicate StartsWith(s: string, p: string) {
    |p| <= |s| && s[..|p|] == p
  }

  /** `s` starts with `p` exactly when it is `p` followed by something. */
  lemma StartsWithIsPrefix(s: string, p: string)
    ensures StartsWith(s, p) <==> exists tail :: s == p + tail
  {
    if StartsWith(s, p) {
      assert s == p + s[|p|..];
    }
    if exists tail :: s == p + tail {
      var tail :| s == p + tail;
      assert s[..|p|] == p;
    }
  }

  /** `s.slice(k)` for a non-negative `k`. */
  function Slice(s: string, k: nat): (r: string)
    ensures k <= |s| ==> s == s[..k] + r
    ensures k > |s| ==> r == []
  {
    if k <= |s| then s[k..] else []
  }

  /** The pieces joined back with `d` between consecutive ones: `parts.join(d)`. */
  function Join(parts: seq<string>, d: char): string {
    if parts == [] then []
    else if |parts| == 1 then parts[0]
    else parts[0] + [d] + Join(parts[1..], d)
  }

  predicate NoneContains(parts: seq<string>, d: char) {
    forall k :: 0 <= k < |parts| ==> d !in parts[k]
  }

  lemma NoneContainsConcat(a: seq<string>, b: seq<string>, d: char)
    requires NoneContains(a, d) && NoneContains(b, d)
    ensures NoneContains(a + b, d)
  {
    forall k | 0 <= k < |a + b|
      ensures d !in (a + b)[k]
    {
      if k >= |a| {
        assert (a + b)[k] == b[k - |a|];
      }
    }
  }

  /** `s.split(d)` for a one-character separator: the maximal pieces of `s`
      between occurrences of `d`; an empty string gives one empty piece. */
  function Split(s: string, d: char): (parts: seq<string>)
    ensures |parts| >= 1
    ensures Join(parts, d) == s
    ensures NoneContains(parts, d)
  {
    if s == [] then [[]]
    else
      var tail := Split(s[1..], d);
      if s[0] == d then [[]] + tail
      else
        var parts := [[s[0]] + tail[0]] + tail[1..];
        assert parts[1..] == tail[1..];
        assert Join(parts, d) == [s[0]] + Join(tail, d);
        parts
  }

  /** `s.split(d)` yields a single piece exactly when `d` does not occur. */
  lemma SplitSingle(s: string, d: char)
    ensures |Split(s, d)| == 1 <==> d !in s
    ensures d !in s ==> Split(s, d) == [s]
  {
    if d !in s {
      SplitNoSepPrefix(s, [], d);
      assert s + [] == s;
    }
  }

  /** `s.split(d, n)`: the first `n` pieces of `s.split(d)`. */
  function SplitLimit(s: string, d: char, n: nat): (parts: seq<string>)
    ensures |parts| == if |Split(s, d)| <= n then |Split(s, d)| else n
    ensures parts == Split(s, d)[..|parts|]
  {
    var all := Split(s, d);
    if |all| <= n then all else all[..n]
  }

  lemma {:induction false} SplitNoSepPrefix(x: string, y: string, d: char)
    requires d !in x
    ensures Split(x + y, d) == [x + Split(y, d)[0]] + Split(y, d)[1..]
  {
    if x != [] {
      var p := Split(y, d);
      assert (x + y)[0] == x[0] != d;
      assert (x + y)[1..] == x[1..] + y;
      SplitNoSepPrefix(x[1..], y, d);
      var t := Split(x[1..] + y, d);
      assert t[0] == x[1..] + p[0] && t[1..] == p[1..];
      assert Split(x + y, d) == [[x[0]] + t[0]] + t[1..];
      assert [x[0]] + (x[1..] + p[0]) == x + p[0];
    } else {
      assert x + y == y;
      var p := Split(y, d);
      assert x + p[0] == p[0];
      assert p == [p[0]] + p[1..];
    }
  }

  /** A piece without `d` followed by `d` splits off as a piece of its own. */
  lemma SplitAtSep(x: string, y: string, d: char)
    requires d !in x
    ensures Split(x + [d] + y, d) == [x] + Split(y, d)
  {
    var z := [d] + y;
    assert x + [d] + y == x + z;
    assert z[0] == d && z[1..] == y;
    assert Split(z, d) == [[]] + Split(y, d);
    SplitNoSepPrefix(x, z, d);
    assert x + [] == x;
  }

  /** Splitting is the inverse of joining pieces that do not contain `d`. */
  lemma {:induction false} SplitJoin(parts: seq<string>, d: char)
    requires |parts| >= 1 && NoneContains(parts, d)
    ensures Split(Join(parts, d), d) == parts
  {
    if |parts| == 1 {
      SplitNoSepPrefix(parts[0], [], d);
      assert parts[0] + [] == parts[0];
    } else {
      assert NoneContains(parts[1..], d);
      SplitJoin(parts[1..], d);
      SplitAtSep(parts[0], Join(parts[1..], d), d);
    }
  }

  lemma {:induction false} JoinConcat(a: seq<string>, b: seq<string>, d: char)
    requires |a| >= 1 && |b| >= 1
    ensures Join(a + b, d) == Join(a, d) + [d] + Join(b, d)
  {
    if |a| > 1 {
      assert (a + b)[1..] == a[1..] + b;
      JoinConcat(a[1..], b, d);
    } else {
      assert (a + b)[1..] == b;
    }
  }

  /** No two adjacent characters are both whitespace. */
  predicate NoWhitespaceRun(s: string) {
    forall i :: 0 <= i < |s| - 1 ==> !IsWhitespace(s[i]) || !IsWhitespace(s[i + 1])
  }

  /** Every whitespace character is a plain space. */
  predicate SpacesOnly(s: string) {
    forall i :: 0 <= i < |s| ==> IsWhitespace(s[i]) ==> s[i] == ' '
  }

  /** `s.replace(/\s+/g, ' ')`: every maximal run of whitespace becomes one space. */
  function CollapseWhitespace(s: string): (r: string)
    ensures (r == []) <==> (s == [])
    ensures r != [] ==> (IsWhitespace(r[0]) <==> IsWhitespace(s[0]))
    ensures Visible(r) == Visible(s)
    ensures NoWhitespaceRun(r) && SpacesOnly(r)
    decreases |s|
  {
    if s == [] then []
    else if IsWhitespace(s[0]) then
      var t := TrimStart(s);
      var k := |s| - |t|;
      assert s == s[..k] + t;
      VisibleAppend(s[..k], t);
      VisibleEmpty(s[..k]);
      [' '] + CollapseWhitespace(t)
    else
      assert s == [s[0]] + s[1..];
      [s[0]] + CollapseWhitespace(s[1..])
  }

  /** Collapsing keeps trailing whitespace as one space: the result ends in
      whitespace exactly when the input does. */
  lemma {:induction false} CollapseKeepsLastEnd(s: string)
    ensures var r := CollapseWhitespace(s);
            r != [] ==> (IsWhitespace(r[|r| - 1]) <==> IsWhitespace(s[|s| - 1]))
    decreases |s|
  {
    if s != [] {
      var r := CollapseWhitespace(s);
      if IsWhitespace(s[0]) {
        var t := TrimStart(s);
        var c := CollapseWhitespace(t);
        assert r == [' '] + c;
        if t == [] {
          assert AllWhitespace(s[..|s|]);
          assert s[..|s|][|s| - 1] == s[|s| - 1];
        } else {
          CollapseKeepsLastEnd(t);
          assert t[|t| - 1] == s[|s| - 1];
          assert r[|r| - 1] == c[|c| - 1];
        }
      } else {
        var c := CollapseWhitespace(s[1..]);
        assert r == [s[0]] + c;
        if |s| > 1 {
          CollapseKeepsLastEnd(s[1..]);
          assert s[1..][|s| - 2] == s[|s| - 1];
          assert r[|r| - 1] == c[|c| - 1];
        }
      }
    }
  }

  /** A string in the form the server broadcasts: trimmed, single spaces. */
  predicate Normalized(s: string) {
    Trimmed(s) && NoWhitespaceRun(s) && SpacesOnly(s)
  }

  /** The clean-up of MSG and DM bodies: trim, collapse every whitespace run
      to one space, and trim again. */
  function NormalizeText(s: string): (r: string)
    ensures Normalized(r)
    ensures Visible(r) == Visible(s)
    ensures (r == []) <==> AllWhitespace(s)
  {
    var t := Trim(s);
    var c := CollapseWhitespace(t);
    TrimKeepsNormal(c);
    TrimKeepsVisible(s);
    TrimKeepsVisible(c);
    VisibleEmpty(s);
    VisibleEmpty(Trim(c));
    Trim(c)
  }

  /** Trimming a string with single plain spaces keeps it that way. */
  lemma TrimKeepsNormal(c: string)
    requires NoWhitespaceRun(c) && SpacesOnly(c)
    ensures Normalized(Trim(c))
  {
    SliceKeepsNormal(c, LeadingWhitespace(c), |Trim(c)|);
  }

  lemma SliceKeepsNormal(c: string, i: nat, n: nat)
    requires i + n <= |c| && NoWhitespaceRun(c) && SpacesOnly(c)
    ensures NoWhitespaceRun(c[i..i + n]) && SpacesOnly(c[i..i + n])
  {
    var r := c[i..i + n];
    forall j | 0 <= j < |r| - 1
      ensures !IsWhitespace(r[j]) || !IsWhitespace(r[j + 1])
    {
      assert r[j] == c[i + j] && r[j + 1] == c[i + j + 1];
    }
    forall j | 0 <= j < |r| && IsWhitespace(r[j])
      ensures r[j] == ' '
    {
      assert r[j] == c[i + j];
    }
  }

  lemma {:induction false} CollapseOfNormal(s: string)
    requires NoWhitespaceRun(s) && SpacesOnly(s)
    ensures CollapseWhitespace(s) == s
    decreases |s|
  {
    if s != [] {
      assert NoWhitespaceRun(s[1..]) && SpacesOnly(s[1..]);
      CollapseOfNormal(s[1..]);
      if IsWhitespace(s[0]) {
        assert s[1..] == [] || !IsWhitespace(s[1]);
        assert TrimStart(s) == s[1..];
      }
    }
  }

  /** The words of `s`: its maximal runs of non-whitespace characters, in order. */
  function Words(s: string): (w: seq<string>)
    ensures s != [] && !IsWhitespace(s[0]) ==> w != []
    decreases |s|
  {
    if s == [] then []
    else if IsWhitespace(s[0]) then Words(s[1..])
    else
      var rest := Words(s[1..]);
      if |s| > 1 && !IsWhitespace(s[1]) then [[s[0]] + rest[0]] + rest[1..]
      else [[s[0]]] + rest
  }

  /** How a non-whitespace character in front joins the words that follow. */
  lemma WordsCons(c: char, x: string)
    requires !IsWhitespace(c)
    ensures Words([c] + x) ==
              if x != [] && !IsWhitespace(x[0]) then [[c] + Words(x)[0]] + Words(x)[1..]
              else [[c]] + Words(x)
  {
    assert ([c] + x)[1..] == x;
  }

  lemma {:induction false} WordsTrimStart(s: string)
    ensures Words(TrimStart(s)) == Words(s)
  {
    if s != [] && IsWhitespace(s[0]) {
      WordsTrimStart(s[1..]);
    }
  }

  /** Trailing whitespace adds no word. */
  lemma {:induction false} WordsAppendSpace(x: string, c: char)
    requires IsWhitespace(c)
    ensures Words(x + [c]) == Words(x)
    decreases |x|
  {
    if x == [] {
      assert Words([c]) == Words([c][1..]);
    } else {
      var y := x[1..];
      assert x + [c] == [x[0]] + (y + [c]);
      assert x == [x[0]] + y;
      WordsAppendSpace(y, c);
      if IsWhitespace(x[0]) {
        assert Words(x + [c]) == Words(y + [c]);
      } else {
        WordsCons(x[0], y + [c]);
        WordsCons(x[0], y);
        if y != [] {
          assert (y + [c])[0] == y[0];
        }
      }
    }
  }

  lemma {:induction false} WordsTrimEnd(s: string)
    ensures Words(TrimEnd(s)) == Words(s)
    decreases |s|
  {
    if s != [] && IsWhitespace(s[|s| - 1]) {
      var init := s[..|s| - 1];
      WordsTrimEnd(init);
      assert s == init + [s[|s| - 1]];
      WordsAppendSpace(init, s[|s| - 1]);
    }
  }

  /** Trimming removes no word. */
  lemma WordsTrim(s: string)
    ensures Words(Trim(s)) == Words(s)
  {
    WordsTrimStart(s);
    WordsTrimEnd(TrimStart(s));
  }

  /** Collapsing whitespace runs removes no word and merges none. */
  lemma {:induction false} WordsCollapse(s: string)
    ensures Words(CollapseWhitespace(s)) == Words(s)
    decreases |s|
  {
    if s != [] {
      if IsWhitespace(s[0]) {
        var t := TrimStart(s);
        WordsCollapse(t);
        WordsTrimStart(s);
        var r := CollapseWhitespace(t);
        assert CollapseWhitespace(s) == [' '] + r;
        assert ([' '] + r)[1..] == r;
      } else {
        var y := s[1..];
        WordsCollapse(y);
        assert s == [s[0]] + y;
        WordsCons(s[0], y);
        WordsCons(s[0], CollapseWhitespace(y));
      }
    }
  }

  /** Joining one more character onto the front of the first piece. */
  lemma JoinOntoFirst(c: char, parts: seq<string>, d: char)
    requires parts != []
    ensures Join([[c] + parts[0]] + parts[1..], d) == [c] + Join(parts, d)
  {
    var q := [[c] + parts[0]] + parts[1..];
    assert q[1..] == parts[1..];
  }

  /** A string with single plain spaces that starts and ends with a visible
      character is its words joined by single spaces. */
  lemma {:induction false} SpacedIsJoinedWords(r: string)
    requires r != [] && !IsWhitespace(r[0]) && !IsWhitespace(r[|r| - 1])
    requires NoWhitespaceRun(r) && SpacesOnly(r)
    ensures r == Join(Words(r), ' ')
    decreases |r|
  {
    var c := r[0];
    var x := r[1..];
    assert r == [c] + x;
    WordsCons(c, x);
    if x == [] {
    } else if !IsWhitespace(x[0]) {
      assert NoWhitespaceRun(x) && SpacesOnly(x) && x[|x| - 1] == r[|r| - 1];
      SpacedIsJoinedWords(x);
      JoinOntoFirst(c, Words(x), ' ');
    } else {
      assert x[0] == r[1] == ' ';
      var y := x[1..];
      assert |r| > 2 && y[0] == r[2];
      assert NoWhitespaceRun(y) && SpacesOnly(y) && y[|y| - 1] == r[|r| - 1];
      SpacedIsJoinedWords(y);
      assert Words(x) == Words(y);
      var ws := [[c]] + Words(y);
      assert ws[1..] == Words(y);
      assert x == [' '] + y;
    }
  }

  /** The clean-up of a body yields exactly the words of `s` joined by
      single spaces. */
  lemma NormalizeIsJoinedWords(s: string)
    ensures NormalizeText(s) == Join(Words(s), ' ')
  {
    var t := Trim(s);
    var c := CollapseWhitespace(t);
    var r := NormalizeText(s);
    WordsTrim(s);
    WordsCollapse(t);
    WordsTrim(c);
    if r != [] {
      SpacedIsJoinedWords(r);
    }
  }

  /** Normalising text is idempotent: normal text is left as it is. */
  lemma NormalizeIdempotent(s: string)
    ensures NormalizeText(NormalizeText(s)) == NormalizeText(s)
  {
    var n := NormalizeText(s);
    TrimOfTrimmed(n);
    CollapseOfNormal(n);
    TrimOfTrimmed(n);
  }
}
