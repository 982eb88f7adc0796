/** The two Python string operations the readers rely on: `str.strip()` and
    `str.split()` with no arguments. Both use the whitespace set of
    `str.isspace()`. */
module Text {

  /** The characters Python's `str.isspace()` accepts: the ASCII controls
      TAB to CR and FS to US, SPACE, NEL, NO-BREAK SPACE, OGHAM SPACE MARK,
      the spaces EN QUAD to HAIR SPACE, the line and paragraph separators,
      NARROW NO-BREAK SPACE, MEDIUM MATHEMATICAL SPACE and IDEOGRAPHIC SPACE. */
  predicate IsSpace(c: char) {
    || ('\t' <= c <= '\r')
    || ('\U{1C}' <= c <= ' ')
    || c == '\U{85}' || c == '\U{A0}' || c == '\U{1680}'
    || ('\U{2000}' <= c <= '\U{200A}')
    || c == '\U{2028}' || c == '\U{2029}' || c == '\U{202F}'
    || c == '\U{205F}' || c == '\U{3000}'
  }

  /** True when every character of `s` is whitespace (vacuously for ""). */
  predicate AllSpace(s: string) {
    forall k :: 0 <= k < |s| ==> IsSpace(s[k])
  }

  /** True when no character of `s` is whitespace. */
  predicate NoSpace(s: string) {
    forall k :: 0 <= k < |s| ==> !IsSpace(s[k])
  }

  /** Number of whitespace characters at the start of `s`. */
  function LeadingSpaces(s: string): (n: nat)
    ensures n <= |s|
    ensures forall k :: 0 <= k < n ==> IsSpace(s[k])
    ensures n < |s| ==> !IsSpace(s[n])
  {
    if s != [] && IsSpace(s[0]) then 1 + LeadingSpaces(s[1..]) else 0
  }

  /** Number of whitespace characters at the end of `s`. */
  function TrailingSpaces(s: string): (n: nat)
    ensures n <= |s|
    ensures forall k :: |s| - n <= k < |s| ==> IsSpace(s[k])
    ensures n < |s| ==> !IsSpace(s[|s| - n - 1])
  {
    if s != [] && IsSpace(s[|s| - 1]) then 1 + TrailingSpaces(s[..|s| - 1]) else 0
  }

  /** `s` with its leading whitespace removed (`s.lstrip()`). */
  function TrimStart(s: string): (r: string)
    ensures r != [] ==> !IsSpace(r[0])
  {
    s[LeadingSpaces(s)..]
  }

  /** `s` with its trailing whitespace removed (`s.rstrip()`). */
  function TrimEnd(s: string): (r: string)
    ensures r != [] ==> !IsSpace(r[|r| - 1])
  {
    s[..|s| - TrailingSpaces(s)]
  }

  /** Python's `s.strip()`. */
  function Strip(s: string): string {
    TrimEnd(TrimStart(s))
  }

  /** A line that `strip()` turns into "", which the readers skip. */
  predicate IsBlank(s: string) {
    Strip(s) == []
  }

  /** Length of the run of non-whitespace characters that `s` starts with. */
  function WordLength(s: string): (n: nat)
    ensures n <= |s| && NoSpace(s[..n])
    ensures n < |s| ==> IsSpace(s[n])
  {
    if s == [] || IsSpace(s[0]) then 0 else 1 + WordLength(s[1..])
  }

  /** The characters of `s` that are not whitespace, in order. */
  function Visible(s: string): string {
    if s == [] then []
    else (if IsSpace(s[0]) then [] else [s[0]]) + Visible(s[1..])
  }

  /** The concatenation of a sequence of strings. */
  function Concat(ss: seq<string>): string {
    if ss == [] then [] else ss[0] + Concat(ss[1..])
  }

  /** The strings of `ss` separated by single spaces. */
  function JoinSpaced(ss: seq<string>): string {
    if ss == [] then []
    else if |ss| == 1 then ss[0]
    else ss[0] + " " + JoinSpaced(ss[1..])
  }

  /** A token `str.split()` can produce: non-empty, without whitespace. */
  predicate IsToken(t: string) {
    t != [] && NoSpace(t)
  }

  /** Python's `s.split()`: the maximal runs of non-whitespace characters,
      left to right. Every piece is a token and, put back together, the
      pieces are exactly the visible characters of `s`. */
  function Split(s: string): (r: seq<string>)
    ensures forall i :: 0 <= i < |r| ==> IsToken(r[i])
    ensures Concat(r) == Visible(s)
    decreases |s|
  {
    var t := TrimStart(s);
    if t == [] then
      VisibleOfSpaces(s);
      []
    else
      var n := WordLength(t);
      var rest := Split(t[n..]);
      VisibleOfFirstWord(s);
      ConcatCons(t[..n], rest);
      [t[..n]] + rest
  }

  lemma ConcatCons(x: string, rest: seq<string>)
    ensures Concat([x] + rest) == x + Concat(rest)
  {
    assert ([x] + rest)[1..] == rest;
  }

  /** The visible characters of `s` are its first word followed by the
      visible characters after that word. */
  lemma VisibleOfFirstWord(s: string)
    requires TrimStart(s) != []
    ensures var t := TrimStart(s); var n := WordLength(t);
      Visible(s) == t[..n] + Visible(t[n..])
  {
    var t := TrimStart(s);
    var n := WordLength(t);
    VisibleSkipsSpaces(s, |s| - |t|);
    assert t[..n] + t[n..] == t;
    VisibleAppend(t[..n], t[n..]);
    VisibleOfToken(t[..n]);
  }

  // ---------------------------------------------------------------------
  // Helper facts about Visible

  lemma {:induction false} VisibleAppend(a: string, b: string)
    ensures Visible(a + b) == Visible(a) + Visible(b)
    decreases |a|
  {
    if a == [] {
      assert a + b == b;
    } else {
      assert (a + b)[1..] == a[1..] + b;
      VisibleAppend(a[1..], b);
    }
  }

  lemma {:induction false} VisibleOfSpaces(s: string)
    requires AllSpace(s)
    ensures Visible(s) == []
    decreases |s|
  {
    if s != [] {
      VisibleOfSpaces(s[1..]);
    }
  }

  lemma {:induction false} VisibleOfToken(s: string)
    requires NoSpace(s)
    ensures Visible(s) == s
    decreases |s|
  {
    if s != [] {
      VisibleOfToken(s[1..]);
    }
  }

  lemma VisibleSkipsSpaces(s: string, k: nat)
    requires k <= |s| && AllSpace(s[..k])
    ensures Visible(s) == Visible(s[k..])
  {
    assert s == s[..k] + s[k..];
    VisibleAppend(s[..k], s[k..]);
    VisibleOfSpaces(s[..k]);
  }

  // ---------------------------------------------------------------------
  // Properties of Strip and Split

  /** `strip()` keeps a contiguous piece of `s` and removes only whitespace
      around it; the piece neither starts nor ends with whitespace. */
  lemma StripSlice(s: string)
    ensures var r := Strip(s);
      exists i :: 0 <= i <= |s| - |r| && r == s[i..i + |r|]
        && AllSpace(s[..i]) && AllSpace(s[i + |r|..])
    ensures Strip(s) != [] ==> !IsSpace(Strip(s)[0]) && !IsSpace(Strip(s)[|Strip(s)| - 1])
  {
    var i := LeadingSpaces(s);
    var t := TrimStart(s);
    var n := TrailingSpaces(t);
    var r := TrimEnd(t);
    assert t == s[i..];
    assert r == s[i..|s| - n];
    forall k | |s| - n <= k < |s| ensures IsSpace(s[k]) {
      assert s[k] == t[k - i];
    }
    SliceBetweenSpaces(s, i, n);
    assert 0 <= i <= |s| - |r| && r == s[i..i + |r|] && AllSpace(s[..i]) && AllSpace(s[i + |r|..]);
    if r != [] {
      assert r[0] == t[0];
    }
  }

  /** Cutting whitespace off both ends leaves a slice with whitespace
      around it. */
  lemma SliceBetweenSpaces(s: string, i: nat, n: nat)
    requires i + n <= |s|
    requires forall k :: 0 <= k < i ==> IsSpace(s[k])
    requires forall k :: |s| - n <= k < |s| ==> IsSpace(s[k])
    ensures var r := s[i..|s| - n];
      r == s[i..i + |r|] && AllSpace(s[..i]) && AllSpace(s[i + |r|..])
  {
    var r := s[i..|s| - n];
    assert i + |r| == |s| - n;
    var tail := s[i + |r|..];
    forall k | 0 <= k < |tail| ensures IsSpace(tail[k]) {
      assert tail[k] == s[i + |r| + k];
    }
  }

  /** A line is blank exactly when all its characters are whitespace. */
  lemma BlankIffAllSpace(s: string)
    ensures IsBlank(s) <==> AllSpace(s)
  {
    TrimStartEmptyIffAllSpace(s);
    var t := TrimStart(s);
    TrimEndEmptyIffAllSpace(t);
    if t != [] {
      assert !AllSpace(t) by {
        assert !IsSpace(t[0]);
      }
    }
  }

  lemma {:induction false} TrimStartEmptyIffAllSpace(s: string)
    ensures TrimStart(s) == [] <==> AllSpace(s)
    decreases |s|
  {
    if s != [] && IsSpace(s[0]) {
      TrimStartEmptyIffAllSpace(s[1..]);
      assert AllSpace(s) <==> AllSpace(s[1..]) by {
        assert forall k :: 0 < k < |s| ==> s[k] == s[1..][k - 1];
      }
    }
  }

  lemma {:induction false} TrimEndEmptyIffAllSpace(s: string)
    ensures TrimEnd(s) == [] <==> AllSpace(s)
    decreases |s|
  {
    if s != [] && IsSpace(s[|s| - 1]) {
      var p := s[..|s| - 1];
      TrimEndEmptyIffAllSpace(p);
      assert AllSpace(s) <==> AllSpace(p) by {
        assert forall k :: 0 <= k < |p| ==> s[k] == p[k];
      }
    }
  }

  /** Removing the leading whitespace first does not change what `split()`
      returns. */
  lemma {:induction false} SplitTrimStart(s: string)
    ensures Split(TrimStart(s)) == Split(s)
  {
    TrimStartIdempotent(s);
  }

  lemma {:induction false} TrimStartIdempotent(s: string)
    ensures TrimStart(TrimStart(s)) == TrimStart(s)
  {
    var t := TrimStart(s);
    if t != [] {
      assert !IsSpace(t[0]);
    }
  }

  /** `split()` yields nothing exactly for a whitespace-only string. */
  lemma SplitEmptyIffBlank(s: string)
    ensures Split(s) == [] <==> AllSpace(s)
  {
    TrimStartEmptyIffAllSpace(s);
  }

  /** A non-empty string without whitespace splits into itself alone. */
  lemma SplitOfToken(s: string)
    requires IsToken(s)
    ensures Split(s) == [s]
  {
    assert TrimStart(s) == s;
    assert WordLength(s) == |s| by {
      WordLengthOfToken(s);
    }
    assert s[|s|..] == [];
    assert TrimStart(s[|s|..]) == [];
    assert s[..|s|] == s;
  }

  lemma {:induction false} WordLengthOfToken(s: string)
    requires NoSpace(s)
    ensures WordLength(s) == |s|
    decreases |s|
  {
    if s != [] {
      WordLengthOfToken(s[1..]);
    }
  }

  /** Round trip: joining tokens with single spaces and splitting again
      gives back the same tokens. */
  lemma {:induction false} SplitJoinSpaced(ts: seq<string>)
    requires forall i :: 0 <= i < |ts| ==> IsToken(ts[i])
    ensures Split(JoinSpaced(ts)) == ts
    decreases |ts|
  {
    if ts == [] {
    } else if |ts| == 1 {
      SplitOfToken(ts[0]);
    } else {
      var rest := JoinSpaced(ts[1..]);
      assert JoinSpaced(ts) == ts[0] + (" " + rest);
      SplitJoinSpaced(ts[1..]);
      SplitTokenSpaced(ts[0], rest);
      assert [ts[0]] + ts[1..] == ts;
    }
  }

  /** A token followed by the end of the string or by whitespace is one
      whole piece of `split()`: the cut falls right after it. */
  lemma SplitTokenThen(t: string, rest: string)
    requires IsToken(t) && (rest == [] || IsSpace(rest[0]))
    ensures Split(t + rest) == [t] + Split(rest)
  {
    if rest == [] {
      assert t + rest == t;
      SplitOfToken(t);
    } else {
      var s := t + rest;
      assert s[0] == t[0];
      assert TrimStart(s) == s;
      WordLengthStopsAtSpace(t, rest);
      assert s[..|t|] == t;
      assert s[|t|..] == rest;
    }
  }

  /** Whitespace in front of a string does not change its pieces. */
  lemma SplitAfterSpaces(g: string, rest: string)
    requires AllSpace(g)
    ensures Split(g + rest) == Split(rest)
  {
    TrimStartAfterSpaces(g, rest);
  }

  lemma {:induction false} TrimStartAfterSpaces(g: string, rest: string)
    requires AllSpace(g)
    ensures TrimStart(g + rest) == TrimStart(rest)
    decreases |g|
  {
    if g == [] {
      assert g + rest == rest;
    } else {
      assert (g + rest)[1..] == g[1..] + rest;
      TrimStartAfterSpaces(g[1..], rest);
    }
  }

  /** `gaps[0] + ts[0] + gaps[1] + ... + ts[n-1] + gaps[n]`: the tokens `ts`
      laid out between the separators `gaps`. */
  function Weave(gaps: seq<string>, ts: seq<string>): string
    requires |gaps| == |ts| + 1
  {
    if ts == [] then gaps[0] else gaps[0] + ts[0] + Weave(gaps[1..], ts[1..])
  }

  /** `gaps` and `ts` lay out a line as `split()` sees it: the tokens are
      tokens, the separators are whitespace, and the separators between two
      tokens are not empty (those at both ends may be). */
  predicate Woven(gaps: seq<string>, ts: seq<string>) {
    && |gaps| == |ts| + 1
    && (forall i :: 0 <= i < |ts| ==> IsToken(ts[i]))
    && (forall i :: 0 <= i < |gaps| ==> AllSpace(gaps[i]))
    && (forall i :: 0 < i < |ts| ==> gaps[i] != [])
  }

  /** `split()` cuts at every run of whitespace, whatever its characters:
      tokens laid out between whitespace separators split back into exactly
      those tokens. */
  lemma {:induction false} SplitWeave(gaps: seq<string>, ts: seq<string>)
    requires Woven(gaps, ts)
    ensures Split(Weave(gaps, ts)) == ts
    decreases |ts|
  {
    if ts == [] {
      SplitEmptyIffBlank(gaps[0]);
    } else {
      var rest := Weave(gaps[1..], ts[1..]);
      WeaveUncons(gaps, ts);
      SplitWeave(gaps[1..], ts[1..]);
      SplitSpacesToken(gaps[0], ts[0], rest);
      assert [ts[0]] + ts[1..] == ts;
    }
  }

  /** A token followed by a space is the first piece. */
  lemma SplitTokenSpaced(t: string, rest: string)
    requires IsToken(t)
    ensures Split(t + (" " + rest)) == [t] + Split(rest)
  {
    SplitTokenThen(t, " " + rest);
    SplitAfterSpaces(" ", rest);
  }

  /** Whitespace, then a token ended by the end or by whitespace: the
      token is the first piece. */
  lemma SplitSpacesToken(g: string, t: string, rest: string)
    requires AllSpace(g) && IsToken(t) && (rest == [] || IsSpace(rest[0]))
    ensures Split(g + (t + rest)) == [t] + Split(rest)
  {
    SplitAfterSpaces(g, t + rest);
    SplitTokenThen(t, rest);
  }

  /** A layout with a token is its first separator, its first token and a
      layout of the rest, which is empty or starts with whitespace. */
  lemma WeaveUncons(gaps: seq<string>, ts: seq<string>)
    requires Woven(gaps, ts) && ts != []
    ensures Woven(gaps[1..], ts[1..])
    ensures var rest := Weave(gaps[1..], ts[1..]);
      && Weave(gaps, ts) == gaps[0] + (ts[0] + rest)
      && (rest == [] || IsSpace(rest[0]))
      && AllSpace(gaps[0]) && IsToken(ts[0])
  {
    assert Woven(gaps[1..], ts[1..]);
    WeaveStart(gaps[1..], ts[1..]);
  }

  /** A layout whose first separator is not empty starts with whitespace. */
  lemma WeaveStart(gaps: seq<string>, ts: seq<string>)
    requires Woven(gaps, ts)
    ensures Weave(gaps, ts) == [] || IsSpace(Weave(gaps, ts)[0]) || gaps[0] == []
  {
    if ts != [] && gaps[0] != [] {
      assert Weave(gaps, ts)[0] == gaps[0][0];
    } else if ts == [] && gaps[0] != [] {
      assert Weave(gaps, ts)[0] == gaps[0][0];
    }
  }

  /** Every string is laid out this way with its own `split()` as the
      tokens: the pieces are the maximal runs of non-whitespace characters,
      in order, and only whitespace lies between and around them. */
  lemma {:induction false} SplitWoven(s: string)
    ensures exists gaps :: Woven(gaps, Split(s)) && Weave(gaps, Split(s)) == s
    decreases |s|
  {
    var t := TrimStart(s);
    if t == [] {
      TrimStartEmptyIffAllSpace(s);
      assert Split(s) == [];
      assert Woven([s], Split(s)) && Weave([s], Split(s)) == s;
    } else {
      var rest := t[WordLength(t)..];
      SplitWoven(rest);
      var gs :| Woven(gs, Split(rest)) && Weave(gs, Split(rest)) == rest;
      SplitWovenStep(s, gs);
    }
  }

  /** The step of `SplitWoven`: the layout of what follows the first token,
      preceded by the leading whitespace and that token. */
  lemma SplitWovenStep(s: string, gs: seq<string>)
    requires TrimStart(s) != []
    requires var t := TrimStart(s); var rest := t[WordLength(t)..];
      Woven(gs, Split(rest)) && Weave(gs, Split(rest)) == rest
    ensures var gaps := [s[..LeadingSpaces(s)]] + gs;
      Woven(gaps, Split(s)) && Weave(gaps, Split(s)) == s
  {
    var k := LeadingSpaces(s);
    var t := TrimStart(s);
    var n := WordLength(t);
    var rest := t[n..];
    FirstWord(s);
    WeaveHead(gs, Split(rest));
    WeaveCons(s[..k], t[..n], gs, Split(rest));
  }

  /** A string with a token splits into its leading whitespace, its first
      token and the rest, which is empty or starts with whitespace. */
  lemma FirstWord(s: string)
    requires TrimStart(s) != []
    ensures var k := LeadingSpaces(s); var t := TrimStart(s); var n := WordLength(t);
      && AllSpace(s[..k]) && IsToken(t[..n])
      && (t[n..] == [] || IsSpace(t[n..][0]))
      && s == s[..k] + (t[..n] + t[n..])
      && Split(s) == [t[..n]] + Split(t[n..])
  {
    var k := LeadingSpaces(s);
    var t := TrimStart(s);
    var n := WordLength(t);
    assert t[..n] + t[n..] == t;
    assert s[..k] + t == s;
  }

  /** Putting a separator and a token in front of a layout whose first
      separator is not empty (or which holds no token) is again a layout. */
  lemma WeaveCons(g: string, t: string, gs: seq<string>, ts: seq<string>)
    requires AllSpace(g) && IsToken(t) && Woven(gs, ts)
    requires ts != [] ==> gs[0] != []
    ensures Woven([g] + gs, [t] + ts)
    ensures Weave([g] + gs, [t] + ts) == g + (t + Weave(gs, ts))
  {
    var gaps, toks := [g] + gs, [t] + ts;
    assert gaps[1..] == gs && toks[1..] == ts;
    forall i | 0 < i < |toks| ensures gaps[i] != [] {
      assert gaps[i] == gs[i - 1];
    }
  }

  /** A layout that starts with an empty separator starts with its first
      token, so not with whitespace. */
  lemma WeaveHead(gaps: seq<string>, ts: seq<string>)
    requires Woven(gaps, ts)
    ensures ts != [] && gaps[0] == [] ==>
      Weave(gaps, ts) != [] && !IsSpace(Weave(gaps, ts)[0])
  {
    if ts != [] && gaps[0] == [] {
      var w := Weave(gaps[1..], ts[1..]);
      var t := ts[0];
      assert IsToken(t);
      assert gaps[0] + t == t;
      assert Weave(gaps, ts) == t + w;
      assert (t + w)[0] == t[0];
    }
  }

  lemma {:induction false} WordLengthStopsAtSpace(t: string, u: string)
    requires NoSpace(t) && u != [] && IsSpace(u[0])
    ensures WordLength(t + u) == |t|
    decreases |t|
  {
    if t == [] {
      assert t + u == u;
    } else {
      assert (t + u)[1..] == t[1..] + u;
      assert (t + u)[0] == t[0];
      WordLengthStopsAtSpace(t[1..], u);
    }
  }
}
