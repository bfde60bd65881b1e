/** String operations of Python's `str` and `re` that the models share, on an
    ASCII model of characters: `lower()` maps only 'A'-'Z', and whitespace is
    the ASCII part of `str.isspace()` (which is also what `\s` matches). */
module Text {

  /** ASCII whitespace as Python sees it: 0x09-0x0D, the separators 0x1C-0x1F, and space. */
  predicate IsSpace(c: char) {
    (9 <= c as int <= 13) || (28 <= c as int <= 32)
  }

  predicate IsUpper(c: char) {
    'A' <= c <= 'Z'
  }

  /** `[a-zA-Z0-9]` */
  predicate IsAlnum(c: char) {
    'a' <= c <= 'z' || 'A' <= c <= 'Z' || '0' <= c <= '9'
  }

  predicate NotAlnum(c: char) {
    !IsAlnum(c)
  }

  predicate IsLowerAlnum(c: char) {
    'a' <= c <= 'z' || '0' <= c <= '9'
  }

  function LowerChar(c: char): char {
    if IsUpper(c) then (c as int + 32) as char else c
  }

  /** `s.lower()` */
  function Lower(s: string): string {
    seq(|s|, i requires 0 <= i < |s| => LowerChar(s[i]))
  }

  /** `re.sub(r"[^a-zA-Z0-9\s]", " ", s)`: every character that is neither a letter,
      a digit nor whitespace becomes a space. */
  function ScrubPunctuation(s: string): string {
    seq(|s|, i requires 0 <= i < |s| => if IsAlnum(s[i]) || IsSpace(s[i]) then s[i] else ' ')
  }

  /** Python's `needle in hay` on strings. */
  predicate Contains(hay: string, needle: string)
    decreases |hay|
  {
    needle <= hay || (hay != [] && Contains(hay[1..], needle))
  }

  /** `s.endswith(suffix)` */
  predicate EndsWith(s: string, suffix: string) {
    |suffix| <= |s| && s[|s| - |suffix|..] == suffix
  }

  /** Drops the longest prefix whose characters all satisfy `p`. */
  function DropWhile(s: string, p: char -> bool): (r: string)
    ensures |r| <= |s| && r == s[|s| - |r|..]
    ensures r != [] ==> !p(r[0])
    ensures s != [] && p(s[0]) ==> |r| < |s|
    ensures forall i | 0 <= i < |s| - |r| :: p(s[i])
  {
    if s != [] && p(s[0]) then
      var r := DropWhile(s[1..], p);
      assert forall i | 1 <= i < |s| :: s[i] == s[1..][i - 1];
      r
    else s
  }

  /** Drops the longest suffix whose characters all satisfy `p`. */
  function DropWhileEnd(s: string, p: char -> bool): (r: string)
    ensures |r| <= |s| && r == s[..|r|]
    ensures r != [] ==> !p(r[|r| - 1])
    ensures forall i | |r| <= i < |s| :: p(s[i])
  {
    if s != [] && p(s[|s| - 1]) then
      var r := DropWhileEnd(s[..|s| - 1], p);
      assert forall i | |r| <= i < |s| - 1 :: s[i] == s[..|s| - 1][i];
      r
    else s
  }

  /** Both ends; `Strip(s, IsSpace)` is `s.strip()`, `rstrip()` is `DropWhileEnd(s, IsSpace)`. */
  function Strip(s: string, p: char -> bool): (r: string)
    ensures |r| <= |s|
    ensures r != [] ==> !p(r[0]) && !p(r[|r| - 1])
  {
    DropWhileEnd(DropWhile(s, p), p)
  }

  /** What `Strip` removes: the result is the slice of `s` after its leading
      run of `p` characters, and every character outside it satisfies `p`. */
  lemma StripWindow(s: string, p: char -> bool)
    ensures Window(s, p, Strip(s, p), |s| - |DropWhile(s, p)|)
  {
    var d := DropWhile(s, p);
    var r := DropWhileEnd(d, p);
    var k := |s| - |d|;
    assert d == s[k..];
    assert r == d[..|r|];
    forall i | k + |r| <= i < |s|
      ensures p(s[i])
    {
      assert s[i] == d[i - k];
    }
  }

  /** `r` is the slice of `s` starting at `k`, and every character of `s`
      outside that slice satisfies `p`. */
  predicate Window(s: string, p: char -> bool, r: string, k: int) {
    0 <= k <= |s| - |r| && r == s[k..k + |r|] &&
    (forall i | 0 <= i < k :: p(s[i])) && (forall i | k + |r| <= i < |s| :: p(s[i]))
  }

  /** No character of `w` satisfies `p`. */
  predicate NoneSatisfy(w: string, p: char -> bool) {
    forall c | c in w :: !p(c)
  }

  /** The longest prefix containing no character that satisfies `p`. */
  function Span(s: string, p: char -> bool): (w: string)
    ensures |w| <= |s| && w == s[..|w|]
    ensures NoneSatisfy(w, p)
    ensures |w| < |s| ==> p(s[|w|])
    ensures s != [] && !p(s[0]) ==> w != []
  {
    if s == [] || p(s[0]) then [] else [s[0]] + Span(s[1..], p)
  }

  /** The maximal runs of characters not satisfying `p`, in order:
      `Runs(s, IsSpace)` is Python's `s.split()`. */
  function Runs(s: string, p: char -> bool): (rs: seq<string>)
    ensures forall w | w in rs :: w != [] && NoneSatisfy(w, p)
    ensures forall w, c | w in rs && c in w :: c in s
    decreases |s|
  {
    var t := DropWhile(s, p);
    if t == [] then []
    else
      var w := Span(t, p);
      var rest := Runs(t[|w|..], p);
      assert forall c | c in t[|w|..] :: c in s;
      assert forall c | c in w :: c in s;
      assert forall x | x in [w] + rest :: x == w || x in rest;
      [w] + rest
  }

  /** `s.split()` */
  function Words(s: string): seq<string> {
    Runs(s, IsSpace)
  }

  /** `re.sub(P + "+", c, s)` for a one-character class P: every maximal run of
      characters satisfying `p` becomes the single character `c`. */
  function CollapseRuns(s: string, p: char -> bool, c: char): string
    decreases |s|
  {
    if s == [] then []
    else if p(s[0]) then [c] + CollapseRuns(DropWhile(s, p), p, c)
    else [s[0]] + CollapseRuns(s[1..], p, c)
  }

  /** `sep.join(parts)` */
  function Join(sep: string, parts: seq<string>): string {
    if |parts| == 0 then ""
    else if |parts| == 1 then parts[0]
    else parts[0] + sep + Join(sep, parts[1..])
  }

  /** `s.split(sep)` for a one-character separator: the pieces between separators, empty ones kept. */
  function Split(s: string, sep: char): (pieces: seq<string>)
    ensures |pieces| >= 1
    ensures forall piece | piece in pieces :: sep !in piece
  {
    if s == [] then [""]
    else
      var rest := Split(s[1..], sep);
      if s[0] == sep then [""] + rest
      else
        assert rest[0] in rest;
        [[s[0]] + rest[0]] + rest[1..]
  }

  /** The non-empty elements, in order: `[x for x in xs if x]`. */
  function NonEmpty(xs: seq<string>): (r: seq<string>)
    ensures forall x | x in r :: x != "" && x in xs
    ensures forall x | x in xs && x != "" :: x in r
  {
    if xs == [] then []
    else if xs[0] == "" then NonEmpty(xs[1..])
    else [xs[0]] + NonEmpty(xs[1..])
  }

  /** No leading or trailing `c` and no two `c` in a row. */
  predicate Separated(s: string, c: char) {
    (s != [] ==> s[0] != c && s[|s| - 1] != c) &&
    forall i | 0 <= i < |s| - 1 :: !(s[i] == c && s[i + 1] == c)
  }

  // ---------------------------------------------------------------------------
  // Lemmas

  lemma LowerAppend(a: string, b: string)
    ensures Lower(a + b) == Lower(a) + Lower(b)
  {
  }

  lemma LowerNoUpper(s: string)
    ensures forall c | c in Lower(s) :: !IsUpper(c)
    ensures forall i | 0 <= i < |s| :: IsSpace(Lower(s)[i]) == IsSpace(s[i])
    ensures forall i | 0 <= i < |s| :: IsAlnum(Lower(s)[i]) == IsAlnum(s[i])
  {
  }

  lemma LowerFixed(s: string)
    requires forall c | c in s :: !IsUpper(c)
    ensures Lower(s) == s
  {
    assert forall i | 0 <= i < |s| :: s[i] in s;
  }

  lemma ScrubShape(s: string)
    ensures |ScrubPunctuation(s)| == |s|
    ensures forall c | c in ScrubPunctuation(s) :: IsAlnum(c) || IsSpace(c)
    ensures forall c | c in ScrubPunctuation(s) && !IsSpace(c) :: c in s
  {
    var r := ScrubPunctuation(s);
    forall c | c in r ensures (IsAlnum(c) || IsSpace(c)) && (!IsSpace(c) ==> c in s) {
      var i :| 0 <= i < |r| && r[i] == c;
      assert s[i] in s;
    }
  }

  lemma ScrubFixed(s: string)
    requires forall c | c in s :: IsAlnum(c) || IsSpace(c)
    ensures ScrubPunctuation(s) == s
  {
    assert forall i | 0 <= i < |s| :: s[i] in s;
  }

  /** A run of non-`p` characters passes through `CollapseRuns` unchanged. */
  lemma {:induction false} CollapsePrefix(w: string, r: string, p: char -> bool, c: char)
    requires NoneSatisfy(w, p)
    ensures CollapseRuns(w + r, p, c) == w + CollapseRuns(r, p, c)
  {
    if w != [] {
      assert !p(w[0]) by { assert w[0] in w; }
      NoneSatisfyTail(w, p);
      CollapsePrefix(w[1..], r, p, c);
      calc {
        CollapseRuns(w + r, p, c);
        { ConsAppend(w, r); }
        CollapseRuns([w[0]] + (w[1..] + r), p, c);
        { CollapseConsKept(w[0], w[1..] + r, p, c); }
        [w[0]] + CollapseRuns(w[1..] + r, p, c);
        [w[0]] + (w[1..] + CollapseRuns(r, p, c));
        { ConsAppend(w, CollapseRuns(r, p, c)); }
        w + CollapseRuns(r, p, c);
      }
    } else {
      assert w + r == r;
    }
  }

  lemma ConsAppend<T>(w: seq<T>, r: seq<T>)
    requires w != []
    ensures w + r == [w[0]] + (w[1..] + r)
  {
    assert w == [w[0]] + w[1..];
  }

  lemma CollapseConsKept(a: char, y: string, p: char -> bool, c: char)
    requires !p(a)
    ensures CollapseRuns([a] + y, p, c) == [a] + CollapseRuns(y, p, c)
  {
    assert ([a] + y)[1..] == y;
  }

  lemma NoneSatisfyTail(w: string, p: char -> bool)
    requires w != [] && NoneSatisfy(w, p)
    ensures NoneSatisfy(w[1..], p)
  {
    forall ch | ch in w[1..] ensures !p(ch) {
      assert ch in w;
    }
  }

  /** Stripping the end of `a + b` touches only `b` when `b` holds a character kept by `p`. */
  lemma {:induction false} DropWhileEndAppend(a: string, b: string, p: char -> bool)
    requires exists i | 0 <= i < |b| :: !p(b[i])
    ensures DropWhileEnd(a + b, p) == a + DropWhileEnd(b, p)
    decreases |b|
  {
    var i :| 0 <= i < |b| && !p(b[i]);
    assert (a + b)[|a + b| - 1] == b[|b| - 1];
    if p(b[|b| - 1]) {
      assert i < |b| - 1;
      assert (a + b)[..|a + b| - 1] == a + b[..|b| - 1];
      assert b[..|b| - 1][i] == b[i];
      DropWhileEndAppend(a, b[..|b| - 1], p);
    }
  }

  lemma {:induction false} DropWhileKept(x: string, p: char -> bool)
    requires x == [] || !p(x[0])
    ensures DropWhile(x, p) == x
  {
  }

  lemma {:induction false} CollapseKeepsFirst(t: string, p: char -> bool, c: char)
    requires t != [] && !p(t[0])
    ensures CollapseRuns(t, p, c) == [t[0]] + CollapseRuns(t[1..], p, c)
  {
  }

  lemma DropWhileCons(c: char, x: string, p: char -> bool)
    requires p(c)
    ensures DropWhile([c] + x, p) == DropWhile(x, p)
  {
    assert ([c] + x)[1..] == x;
  }

  /** Leading runs are dropped before or after collapsing alike. */
  lemma {:induction false} DropCollapse(s: string, p: char -> bool, c: char)
    requires p(c)
    ensures DropWhile(CollapseRuns(s, p, c), p) == CollapseRuns(DropWhile(s, p), p, c)
  {
    if s == [] {
    } else if p(s[0]) {
      var t := DropWhile(s, p);
      var x := CollapseRuns(t, p, c);
      assert CollapseRuns(s, p, c) == [c] + x;
      DropWhileCons(c, x, p);
      DropWhileKept(t, p);
      if t != [] {
        CollapseKeepsFirst(t, p, c);
      }
      DropWhileKept(x, p);
    } else {
      DropWhileKept(s, p);
      CollapseKeepsFirst(s, p, c);
      DropWhileKept(CollapseRuns(s, p, c), p);
    }
  }

  /** The heart of all three normalisations: collapsing runs of `p` to `c` and
      stripping `p` from both ends is joining the runs with `c`. */
  lemma {:induction false} CollapseStripIsJoin(s: string, p: char -> bool, c: char)
    requires p(c)
    ensures Strip(CollapseRuns(s, p, c), p) == Join([c], Runs(s, p))
  {
    DropCollapse(s, p, c);
    CollapseDroppedIsJoin(s, p, c);
  }

  lemma {:induction false} CollapseDroppedIsJoin(s: string, p: char -> bool, c: char)
    requires p(c)
    ensures DropWhileEnd(CollapseRuns(DropWhile(s, p), p, c), p) == Join([c], Runs(s, p))
    decreases |s|
  {
    var t := DropWhile(s, p);
    if t != [] {
      var w := Span(t, p);
      var rest := t[|w|..];
      RunsStep(s, p);
      SliceSplit(t, |w|);
      CollapsePrefix(w, rest, p, c);
      if rest != [] {
        CollapseDroppedIsJoin(rest, p, c);
      }
      CollapseAfterRun(w, rest, p, c);
    }
  }

  /** The step of `CollapseDroppedIsJoin`: a run `w` followed by text that is
      empty or starts with a character of `p`. */
  lemma CollapseAfterRun(w: string, rest: string, p: char -> bool, c: char)
    requires p(c)
    requires w != [] && !p(w[|w| - 1])
    requires rest == [] || p(rest[0])
    requires rest != [] ==> DropWhileEnd(CollapseRuns(DropWhile(rest, p), p, c), p) == Join([c], Runs(rest, p))
    ensures DropWhileEnd(w + CollapseRuns(rest, p, c), p) == Join([c], [w] + Runs(rest, p))
  {
    if rest == [] || DropWhile(rest, p) == [] {
      CollapseAfterLastRun(w, rest, p, c);
    } else {
      CollapseBeforeRun(w, rest, p, c);
    }
  }

  lemma CollapseAfterLastRun(w: string, rest: string, p: char -> bool, c: char)
    requires p(c)
    requires w != [] && !p(w[|w| - 1])
    requires rest == [] || (p(rest[0]) && DropWhile(rest, p) == [])
    ensures DropWhileEnd(w + CollapseRuns(rest, p, c), p) == Join([c], [w] + Runs(rest, p))
  {
    var tail := CollapseRuns(rest, p, c);
    RunsEnd(rest, p, c);
    LastRun(w, tail, p, c);
  }

  /** Nothing but a run of `p`: no runs, and at most one `c`. */
  lemma RunsEnd(rest: string, p: char -> bool, c: char)
    requires rest == [] || (p(rest[0]) && DropWhile(rest, p) == [])
    ensures Runs(rest, p) == []
    ensures CollapseRuns(rest, p, c) == (if rest == [] then [] else [c])
  {
  }

  lemma CollapseBeforeRun(w: string, rest: string, p: char -> bool, c: char)
    requires p(c)
    requires w != [] && !p(w[|w| - 1])
    requires rest != [] && p(rest[0]) && DropWhile(rest, p) != []
    requires DropWhileEnd(CollapseRuns(DropWhile(rest, p), p, c), p) == Join([c], Runs(rest, p))
    ensures DropWhileEnd(w + CollapseRuns(rest, p, c), p) == Join([c], [w] + Runs(rest, p))
  {
    var u := DropWhile(rest, p);
    var x := CollapseRuns(u, p, c);
    assert CollapseRuns(rest, p, c) == [c] + x;
    CollapseKeepsFirst(u, p, c);
    RunsNonEmpty(rest, p);
    JoinCons(w, x, Runs(rest, p), p, c);
  }

  lemma RunsNonEmpty(s: string, p: char -> bool)
    requires DropWhile(s, p) != []
    ensures Runs(s, p) != []
  {
  }

  lemma SliceSplit(t: string, k: nat)
    requires k <= |t|
    ensures t == t[..k] + t[k..]
  {
  }

  /** One unfolding of `Runs` on an input that does not drop to nothing. */
  lemma RunsStep(s: string, p: char -> bool)
    requires DropWhile(s, p) != []
    ensures var t := DropWhile(s, p); var w := Span(t, p);
      w != [] && !p(w[|w| - 1]) && Runs(s, p) == [w] + Runs(t[|w|..], p)
  {
    var t := DropWhile(s, p);
    var w := Span(t, p);
    assert w[|w| - 1] in w;
  }

  lemma {:induction false} LastRun(w: string, tail: string, p: char -> bool, c: char)
    requires w != [] && !p(w[|w| - 1])
    requires tail == [] || tail == [c]
    requires p(c)
    ensures DropWhileEnd(w + tail, p) == Join([c], [w])
    ensures DropWhileEnd(w + tail, p) == Join([c], [w] + [])
  {
    assert [w] + [] == [w];
    if tail == [c] {
      assert (w + tail)[..|w + tail| - 1] == w;
    } else {
      assert w + tail == w;
    }
  }

  lemma {:induction false} JoinCons(w: string, x: string, rs: seq<string>, p: char -> bool, c: char)
    requires x != [] && !p(x[0])
    requires DropWhileEnd(x, p) == Join([c], rs)
    requires rs != []
    ensures DropWhileEnd(w + ([c] + x), p) == Join([c], [w] + rs)
  {
    assert w + ([c] + x) == (w + [c]) + x;
    DropWhileEndAppend(w + [c], x, p);
    assert ([w] + rs)[1..] == rs;
  }

  lemma {:induction false} SpanAppend(w: string, r: string, p: char -> bool)
    requires NoneSatisfy(w, p)
    requires r != [] && p(r[0])
    ensures Span(w + r, p) == w
  {
    if w != [] {
      assert w[0] in w;
      assert (w + r)[1..] == w[1..] + r;
      SpanAppend(w[1..], r, p);
    }
  }

  /** Splitting a join of runs gives back the runs: `"".join` and `split` are inverse here. */
  lemma {:induction false} RunsOfJoin(ws: seq<string>, p: char -> bool, c: char)
    requires p(c)
    requires forall w | w in ws :: w != [] && NoneSatisfy(w, p)
    ensures Runs(Join([c], ws), p) == ws
  {
    if |ws| == 1 {
      assert ws[0] in ws;
      RunsPlain(ws[0], p);
    } else if |ws| > 1 {
      assert ws[0] in ws && ws[1] in ws;
      assert forall x | x in ws[1..] :: x in ws;
      RunsOfJoin(ws[1..], p, c);
      RunsOfJoinStep(ws, p, c);
    }
  }

  lemma {:induction false} RunsOfJoinStep(ws: seq<string>, p: char -> bool, c: char)
    requires |ws| > 1 && p(c)
    requires ws[0] != [] && NoneSatisfy(ws[0], p)
    requires ws[1] != [] && NoneSatisfy(ws[1], p)
    requires Runs(Join([c], ws[1..]), p) == ws[1..]
    ensures Runs(Join([c], ws), p) == ws
  {
    var j := Join([c], ws[1..]);
    assert ws[1][0] in ws[1];
    JoinStart(ws[1..], c);
    RunsCons(ws[0], c, j, p);
    JoinUnfold(ws, c);
    ConsTail(ws);
  }

  lemma ConsTail<T>(xs: seq<T>)
    requires xs != []
    ensures xs == [xs[0]] + xs[1..]
  {
  }

  lemma JoinUnfold(ws: seq<string>, c: char)
    requires |ws| > 1
    ensures Join([c], ws) == ws[0] + ([c] + Join([c], ws[1..]))
  {
    assert ws[0] + [c] + Join([c], ws[1..]) == ws[0] + ([c] + Join([c], ws[1..]));
  }

  /** A single run is its own split. */
  lemma {:induction false} RunsPlain(w: string, p: char -> bool)
    requires w != [] && NoneSatisfy(w, p)
    ensures Runs(w, p) == [w]
  {
    assert w[0] in w;
    DropWhileKept(w, p);
    SpanAppendEmpty(w, p);
    assert w[|w|..] == [];
  }

  lemma {:induction false} SpanAppendEmpty(w: string, p: char -> bool)
    requires NoneSatisfy(w, p)
    ensures Span(w, p) == w
  {
    if w != [] {
      assert w[0] in w;
      assert forall ch | ch in w[1..] :: ch in w;
      SpanAppendEmpty(w[1..], p);
    }
  }

  /** A run, a separator, and the rest starting with a kept character. */
  lemma {:induction false} RunsCons(w: string, c: char, j: string, p: char -> bool)
    requires w != [] && NoneSatisfy(w, p)
    requires p(c)
    requires j != [] && !p(j[0])
    ensures Runs(w + ([c] + j), p) == [w] + Runs(j, p)
  {
    var s := w + ([c] + j);
    assert w[0] in w;
    assert s[0] == w[0];
    DropWhileKept(s, p);
    SpanAppend(w, [c] + j, p);
    assert s[|w|..] == [c] + j;
    assert ([c] + j)[1..] == j;
    DropWhileKept(j, p);
    RunsSkip(c, j, p);
  }

  lemma {:induction false} RunsSkip(c: char, j: string, p: char -> bool)
    requires p(c)
    ensures Runs([c] + j, p) == Runs(j, p)
  {
    var s := [c] + j;
    assert s[1..] == j;
    var t := DropWhile(s, p);
    assert t == DropWhile(j, p);
    if t != [] {
      var w := Span(t, p);
      assert Runs(s, p) == [w] + Runs(t[|w|..], p);
      assert Runs(j, p) == [w] + Runs(t[|w|..], p);
    }
  }

  lemma {:induction false} JoinStart(ws: seq<string>, c: char)
    requires ws != [] && ws[0] != []
    ensures Join([c], ws) != [] && Join([c], ws)[0] == ws[0][0]
  {
  }

  /** A join of non-empty pieces free of `c` has `c` only as a single separator. */
  lemma {:induction false} JoinSeparated(ws: seq<string>, c: char)
    requires forall w | w in ws :: w != [] && c !in w
    ensures Separated(Join([c], ws), c)
    ensures forall ch | ch in Join([c], ws) :: ch == c || exists w | w in ws :: ch in w
  {
    if |ws| == 1 {
      assert ws[0] in ws;
      assert ws[0][0] in ws[0] && ws[0][|ws[0]| - 1] in ws[0];
      assert forall i | 0 <= i < |ws[0]| :: ws[0][i] in ws[0];
    } else if |ws| > 1 {
      var w := ws[0];
      var rest := ws[1..];
      var j := Join([c], rest);
      assert w in ws && ws[1] in ws;
      assert forall x | x in rest :: x in ws;
      JoinSeparated(rest, c);
      JoinStart(rest, c);
      var s := Join([c], ws);
      assert s == w + [c] + j;
      assert forall i | 0 <= i < |w| :: s[i] == w[i] && w[i] in w;
      assert s[|w|] == c;
      assert forall i | |w| < i < |s| :: s[i] == j[i - |w| - 1];
      assert j != [] && j[0] != c && j[|j| - 1] != c;
      forall i | 0 <= i < |s| - 1
        ensures !(s[i] == c && s[i + 1] == c)
      {
        if i < |w| - 1 {
        } else if i == |w| - 1 {
        } else if i == |w| {
          assert s[i + 1] == j[0];
        } else {
          assert s[i] == j[i - |w| - 1] && s[i + 1] == j[i - |w|];
        }
      }
      forall ch | ch in s
        ensures ch == c || exists x | x in ws :: ch in x
      {
        var k :| 0 <= k < |s| && s[k] == ch;
        if k < |w| {
          assert ch in w;
        } else if k > |w| {
          assert ch in j;
        }
      }
    }
  }

  lemma {:induction false} SplitNoSep(a: string, sep: char)
    requires sep !in a
    ensures Split(a, sep) == [a]
  {
    if a != [] {
      assert sep !in a[1..];
      SplitNoSep(a[1..], sep);
      assert [a[0]] + a[1..] == a;
    }
  }

  lemma {:induction false} SplitAfter(a: string, b: string, sep: char)
    requires sep !in a
    ensures Split(a + [sep] + b, sep) == [a] + Split(b, sep)
  {
    if a == [] {
      assert a + [sep] + b == [sep] + b;
      assert ([sep] + b)[1..] == b;
    } else {
      assert (a + [sep] + b)[1..] == a[1..] + [sep] + b;
      assert sep !in a[1..];
      SplitAfter(a[1..], b, sep);
      assert [a[0]] + a[1..] == a;
    }
  }

  /** Joining the pieces of a split with its separator gives back the text. */
  lemma {:induction false} JoinSplit(s: string, sep: char)
    ensures Join([sep], Split(s, sep)) == s
  {
    if s != [] {
      var rest := Split(s[1..], sep);
      JoinSplit(s[1..], sep);
      if s[0] == sep {
        assert ([""] + rest)[1..] == rest;
      } else {
        JoinPrepend([sep], [s[0]], rest);
      }
    }
  }

  lemma JoinPrepend(sep: string, x: string, ps: seq<string>)
    requires ps != []
    ensures Join(sep, [x + ps[0]] + ps[1..]) == x + Join(sep, ps)
  {
    if |ps| > 1 {
      assert ([x + ps[0]] + ps[1..])[1..] == ps[1..];
    }
  }

  /** `sep.join(ws).split(sep) == ws` when no piece contains the separator. */
  lemma {:induction false} SplitOfJoin(ws: seq<string>, sep: char)
    requires |ws| >= 1
    requires forall w | w in ws :: sep !in w
    ensures Split(Join([sep], ws), sep) == ws
  {
    assert ws[0] in ws;
    if |ws| == 1 {
      SplitNoSep(ws[0], sep);
    } else {
      assert forall w | w in ws[1..] :: w in ws;
      SplitOfJoin(ws[1..], sep);
      SplitAfter(ws[0], Join([sep], ws[1..]), sep);
    }
  }

  lemma {:induction false} NonEmptyOfNonEmpty(xs: seq<string>)
    requires forall x | x in xs :: x != ""
    ensures NonEmpty(xs) == xs
  {
    if xs != [] {
      assert xs[0] in xs;
      assert forall x | x in xs[1..] :: x in xs;
      NonEmptyOfNonEmpty(xs[1..]);
    }
  }

  /** What `" ".join(s.split())` gives: lower-case when `s` is, single separators, no
      whitespace but the separator. */
  lemma {:induction false} JoinWordsShape(s: string)
    ensures var r := Join(" ", Words(s));
      Separated(r, ' ') &&
      (forall ch | ch in r :: ch == ' ' || (ch in s && !IsSpace(ch)))
  {
    var ws := Words(s);
    assert forall w | w in ws :: w != [] && ' ' !in w;
    JoinSeparated(ws, ' ');
  }

  /** `" ".join(t.split())` is idempotent. */
  lemma {:induction false} JoinWordsIdempotent(s: string)
    ensures var r := Join(" ", Words(s)); Join(" ", Words(r)) == r
  {
    RunsOfJoin(Words(s), IsSpace, ' ');
  }
  /** Every character of a collapsed string is the replacement or a kept character of the input. */
  lemma {:induction false} CollapseChars(s: string, p: char -> bool, c: char)
    ensures forall ch | ch in CollapseRuns(s, p, c) :: ch == c || (ch in s && !p(ch))
    decreases |s|
  {
    if s != [] {
      if p(s[0]) {
        var t := DropWhile(s, p);
        CollapseChars(t, p, c);
        assert forall ch | ch in t :: ch in s;
      } else {
        CollapseChars(s[1..], p, c);
        assert forall ch | ch in s[1..] :: ch in s;
      }
    }
  }

  /** Stripping depends only on what the predicate says about the characters present. */
  lemma {:induction false} DropWhileAgree(s: string, p: char -> bool, q: char -> bool)
    requires forall ch | ch in s :: p(ch) == q(ch)
    ensures DropWhile(s, p) == DropWhile(s, q)
  {
    if s != [] {
      assert s[0] in s;
      assert forall ch | ch in s[1..] :: ch in s;
      DropWhileAgree(s[1..], p, q);
    }
  }

  lemma {:induction false} DropWhileEndAgree(s: string, p: char -> bool, q: char -> bool)
    requires forall ch | ch in s :: p(ch) == q(ch)
    ensures DropWhileEnd(s, p) == DropWhileEnd(s, q)
  {
    if s != [] {
      assert s[|s| - 1] in s;
      assert forall ch | ch in s[..|s| - 1] :: ch in s;
      DropWhileEndAgree(s[..|s| - 1], p, q);
    }
  }

  lemma StripAgree(s: string, p: char -> bool, q: char -> bool)
    requires forall ch | ch in s :: p(ch) == q(ch)
    ensures Strip(s, p) == Strip(s, q)
  {
    DropWhileAgree(s, p, q);
    var d := DropWhile(s, p);
    assert forall ch | ch in d :: ch in s;
    DropWhileEndAgree(d, p, q);
  }

  /** No run is left exactly when every character satisfies `p`. */
  lemma {:induction false} RunsEmpty(s: string, p: char -> bool)
    ensures Runs(s, p) == [] <==> forall ch | ch in s :: p(ch)
  {
    DropWhileAll(s, p);
  }

  lemma {:induction false} DropWhileAll(s: string, p: char -> bool)
    ensures DropWhile(s, p) == [] <==> forall ch | ch in s :: p(ch)
  {
    if s != [] {
      assert s[0] in s;
      DropWhileAll(s[1..], p);
      assert forall ch | ch in s :: ch == s[0] || ch in s[1..];
    }
  }

  /** Joining at least one non-empty piece gives a non-empty string. */
  lemma JoinNonEmpty(sep: string, ws: seq<string>)
    requires ws != [] && ws[0] != []
    ensures Join(sep, ws) != []
  {
  }

  /** A string with no whitespace at either end is its own `strip()`. */
  lemma StripTrimmed(s: string, p: char -> bool)
    requires s == [] || (!p(s[0]) && !p(s[|s| - 1]))
    ensures Strip(s, p) == s
  {
  }

  /** `Strip` returns a contiguous piece of its input. */
  lemma StripSlice(s: string, p: char -> bool) returns (k: nat)
    ensures k + |Strip(s, p)| <= |s| && Strip(s, p) == s[k..k + |Strip(s, p)|]
  {
    var d := DropWhile(s, p);
    var r := DropWhileEnd(d, p);
    k := |s| - |d|;
    assert d == s[k..];
    assert r == d[..|r|];
    assert s[k..][..|r|] == s[k..k + |r|];
  }

  /** `needle` occurs in `hay` starting at position `i`. */
  predicate OccursAt(hay: string, needle: string, i: int) {
    0 <= i && i + |needle| <= |hay| && hay[i..i + |needle|] == needle
  }

  /** `needle in hay` holds exactly when `needle` occurs at some position of `hay`. */
  lemma {:induction false} ContainsMeaning(hay: string, needle: string)
    ensures Contains(hay, needle) <==> exists i :: OccursAt(hay, needle, i)
    decreases |hay|
  {
    if needle <= hay {
      assert OccursAt(hay, needle, 0);
    }
    if hay == [] {
      if exists i :: OccursAt(hay, needle, i) {
        var i :| OccursAt(hay, needle, i);
        assert needle <= hay;
      }
    } else {
      var t := hay[1..];
      ContainsMeaning(t, needle);
      if exists i :: OccursAt(hay, needle, i) {
        var i :| OccursAt(hay, needle, i);
        if i > 0 {
          assert t[i - 1..i - 1 + |needle|] == hay[i..i + |needle|];
          assert OccursAt(t, needle, i - 1);
        }
      }
      if exists j :: OccursAt(t, needle, j) {
        var j :| OccursAt(t, needle, j);
        assert t[j..j + |needle|] == hay[j + 1..j + 1 + |needle|];
        assert OccursAt(hay, needle, j + 1);
      }
    }
  }
}
