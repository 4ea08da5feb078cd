/** The string operations the collector relies on, with Python 3 `str`
    semantics: `split()` with no argument, `split(sep)`, `sep.join(...)`,
    and the substring test `sep in s`. */
module Text {

  /** Python's `str.isspace()`: the characters `str.split()` splits on. */
  predicate IsSpace(c: char) {
    var n := c as int;
    || (0x09 <= n <= 0x0D) || (0x1C <= n <= 0x20)
    || n == 0x85 || n == 0xA0 || n == 0x1680
    || (0x2000 <= n <= 0x200A)
    || n == 0x2028 || n == 0x2029 || n == 0x202F || n == 0x205F || n == 0x3000
  }

  predicate NoSpace(s: string) {
    forall i :: 0 <= i < |s| ==> !IsSpace(s[i])
  }

  /** A word as `str.split()` returns it: non-empty, without whitespace. */
  predicate IsWord(w: string) {
    |w| > 0 && NoSpace(w)
  }

  /** `s` with its leading whitespace removed. */
  function TrimStart(s: string): (r: string)
    ensures |r| <= |s| && r == s[|s| - |r|..]
    ensures forall i :: 0 <= i < |s| - |r| ==> IsSpace(s[i])
    ensures |r| > 0 ==> !IsSpace(r[0])
  {
    if |s| > 0 && IsSpace(s[0]) then TrimStart(s[1..]) else s
  }

  /** The longest prefix of `s` that holds no whitespace. */
  function LeadingWord(s: string): (r: string)
    ensures |r| <= |s| && r == s[..|r|]
    ensures NoSpace(r)
    ensures |r| < |s| ==> IsSpace(s[|r|])
  {
    if |s| > 0 && !IsSpace(s[0]) then [s[0]] + LeadingWord(s[1..]) else []
  }

  /** Python's `s.split()`: the maximal whitespace-free runs of `s`, in order. */
  function Words(s: string): (r: seq<string>)
    ensures forall i :: 0 <= i < |r| ==> IsWord(r[i])
    decreases |s|
  {
    var t := TrimStart(s);
    if |t| == 0 then []
    else
      var w := LeadingWord(t);
      [w] + Words(t[|w|..])
  }

  lemma Decompose(s: string, t: string, w: string)
    requires |t| <= |s| && t == s[|s| - |t|..]
    requires |w| <= |t| && w == t[..|w|]
    ensures s == s[..|s| - |t|] + w + t[|w|..]
  {
    assert t == w + t[|w|..];
    assert s == s[..|s| - |t|] + t;
  }

  /** `s` is its words separated by whitespace. */
  lemma {:induction false} WordsSplits(s: string)
    ensures SplitsAs(s, Words(s))
    decreases |s|
  {
    var t := TrimStart(s);
    if |t| == 0 {
      SplitsBlank(s);
    } else {
      var w := LeadingWord(t);
      var rest := t[|w|..];
      WordsSplits(rest);
      Decompose(s, t, w);
      SplitsCons(s, s[..|s| - |t|], w, rest, Words(rest));
    }
  }

  predicate AllSpace(s: string) {
    forall i :: 0 <= i < |s| ==> IsSpace(s[i])
  }

  /** `gaps[0] + ws[0] + gaps[1] + ws[1] + ... + gaps[|ws|]`. */
  function Weave(gaps: seq<string>, ws: seq<string>): string
    requires |gaps| == |ws| + 1
    decreases |ws|
  {
    if |ws| == 0 then gaps[0] else gaps[0] + ws[0] + Weave(gaps[1..], ws[1..])
  }

  /** Whitespace runs that can stand around `n` words: all of them
      whitespace, and the ones between two words non-empty. */
  predicate Gaps(gaps: seq<string>, n: nat) {
    && |gaps| == n + 1
    && (forall i :: 0 <= i < |gaps| ==> AllSpace(gaps[i]))
    && (forall i :: 0 < i < n ==> |gaps[i]| > 0)
  }

  /** `s` is the words `ws` separated by whitespace: each one non-empty
      and whitespace-free, with whitespace runs before, between (at least
      one character) and after them. */
  ghost predicate SplitsAs(s: string, ws: seq<string>) {
    && (forall i :: 0 <= i < |ws| ==> IsWord(ws[i]))
    && exists gaps :: Gaps(gaps, |ws|) && s == Weave(gaps, ws)
  }

  lemma SplitsBlank(s: string)
    requires |TrimStart(s)| == 0
    ensures SplitsAs(s, [])
  {
    assert Gaps([s], 0) && s == Weave([s], []);
  }

  lemma SplitsCons(s: string, lead: string, w: string, rest: string, ws: seq<string>)
    requires AllSpace(lead) && IsWord(w) && s == lead + w + rest
    requires |rest| == 0 || IsSpace(rest[0])
    requires SplitsAs(rest, ws)
    ensures SplitsAs(s, [w] + ws)
  {
    var g :| Gaps(g, |ws|) && rest == Weave(g, ws);
    var gs := [lead] + g;
    var vs := [w] + ws;
    assert gs[1..] == g && vs[1..] == ws;
    assert Weave(gs, vs) == lead + w + Weave(g, ws);
    if |ws| > 0 {
      var after := ws[0] + Weave(g[1..], ws[1..]);
      assert rest == g[0] + after;
      HeadOfConcat(g[0], after);
      assert !IsSpace(after[0]);
    }
    assert Gaps(gs, |vs|);
  }

  lemma HeadOfConcat(a: string, b: string)
    requires |b| > 0
    ensures (a + b)[0] == if |a| > 0 then a[0] else b[0]
  {
  }

  /** The words of a whitespace-only string: none. */
  lemma WordsOfSpaces(sp: string)
    requires AllSpace(sp)
    ensures Words(sp) == []
  {
    TrimStartAfterSpace(sp, []);
    assert sp + [] == sp;
  }

  /** Leading whitespace does not change the words. */
  lemma WordsAfterSpaces(sp: string, s: string)
    requires AllSpace(sp)
    ensures Words(sp + s) == Words(s)
  {
    TrimStartAfterSpace(sp, s);
  }

  lemma WordsFirstSpace(w: string, c: char, tail: string)
    requires IsWord(w) && IsSpace(c)
    ensures Words(w + ([c] + tail)) == [w] + Words([c] + tail)
  {
    assert Words(w + [c] + tail) == [w] + Words(tail) by {
      WordsCons(w, c, tail);
    }
    assert Words([c] + tail) == Words(tail) by {
      WordsAfterSpaces([c], tail);
    }
    ConcatAssoc(w, [c], tail);
  }

  /** A word followed by nothing, or by whitespace, splits off first. */
  lemma WordsFirst(w: string, rest: string)
    requires IsWord(w)
    requires |rest| == 0 || IsSpace(rest[0])
    ensures Words(w + rest) == [w] + Words(rest)
  {
    if |rest| == 0 {
      assert w + rest == w;
      WordsOfWord(w);
    } else {
      WordsFirstSpace(w, rest[0], rest[1..]);
      assert [rest[0]] + rest[1..] == rest;
    }
  }

  /** Words separated by whitespace split back into those words. */
  lemma {:induction false} WordsOfWeave(gaps: seq<string>, ws: seq<string>)
    requires Gaps(gaps, |ws|)
    requires forall i :: 0 <= i < |ws| ==> IsWord(ws[i])
    ensures Words(Weave(gaps, ws)) == ws
    decreases |ws|
  {
    if |ws| == 0 {
      WordsOfSpaces(gaps[0]);
    } else {
      assert Gaps(gaps[1..], |ws| - 1);
      WordsOfWeave(gaps[1..], ws[1..]);
      WeaveStep(gaps, ws);
    }
  }

  /** The inductive step of `WordsOfWeave`: the first gap and word in
      front of a weave that splits correctly. */
  lemma WeaveStep(gaps: seq<string>, ws: seq<string>)
    requires Gaps(gaps, |ws|) && |ws| > 0 && IsWord(ws[0])
    requires Words(Weave(gaps[1..], ws[1..])) == ws[1..]
    ensures Words(Weave(gaps, ws)) == ws
  {
    WeaveTailStartsSpace(gaps, ws);
    WordsOfGapWord(gaps[0], ws[0], Weave(gaps[1..], ws[1..]), ws[1..]);
    WeaveCons(gaps, ws);
    assert [ws[0]] + ws[1..] == ws;
  }

  /** Whitespace, a word, then text that starts with whitespace. */
  lemma WordsOfGapWord(sp: string, w: string, rest: string, ws: seq<string>)
    requires AllSpace(sp) && IsWord(w)
    requires |rest| == 0 || IsSpace(rest[0])
    requires Words(rest) == ws
    ensures Words(sp + (w + rest)) == [w] + ws
  {
    WordsFirst(w, rest);
    WordsAfterSpaces(sp, w + rest);
  }

  lemma WeaveCons(gaps: seq<string>, ws: seq<string>)
    requires |gaps| == |ws| + 1 && |ws| > 0
    ensures Weave(gaps, ws) == gaps[0] + (ws[0] + Weave(gaps[1..], ws[1..]))
  {
    ConcatAssoc(gaps[0], ws[0], Weave(gaps[1..], ws[1..]));
  }

  /** After the first word, the woven text is empty or starts with whitespace. */
  lemma WeaveTailStartsSpace(gaps: seq<string>, ws: seq<string>)
    requires Gaps(gaps, |ws|) && |ws| > 0
    ensures |Weave(gaps[1..], ws[1..])| == 0 || IsSpace(Weave(gaps[1..], ws[1..])[0])
  {
    if |ws| > 1 {
      assert |gaps[1]| > 0;
      WeaveCons(gaps[1..], ws[1..]);
      assert Weave(gaps[1..], ws[1..])[0] == gaps[1][0];
    } else {
      assert Weave(gaps[1..], ws[1..]) == gaps[1];
    }
  }

  /** Two words between three whitespace runs. */
  lemma WeaveTwo(g0: string, w0: string, g1: string, w1: string, g2: string)
    ensures Weave([g0, g1, g2], [w0, w1]) == g0 + w0 + g1 + w1 + g2
  {
    var gaps, ws := [g0, g1, g2], [w0, w1];
    assert Weave(gaps[2..], ws[2..]) == g2 by {
      assert gaps[2..] == [g2] && ws[2..] == [];
    }
    assert Weave(gaps[1..], ws[1..]) == g1 + w1 + g2 by {
      assert gaps[1..] == [g1, g2] && ws[1..] == [w1];
      assert gaps[1..][1..] == gaps[2..] && ws[1..][1..] == ws[2..];
    }
    assert Weave(gaps, ws) == g0 + w0 + (g1 + w1 + g2);
    ConcatAssoc(g0 + w0, g1 + w1, g2);
    ConcatAssoc(g0 + w0, g1, w1);
  }

  /** `text` is the words `a` and `b`, separated by whitespace and with
      optional whitespace around them. */
  predicate PairText(text: string, sp0: string, a: string, sp1: string, b: string, sp2: string) {
    && AllSpace(sp0) && AllSpace(sp1) && |sp1| > 0 && AllSpace(sp2)
    && text == sp0 + a + sp1 + b + sp2
  }

  /** A text that splits as two words is those words with whitespace
      between and around them. */
  lemma SplitsAsPair(text: string, a: string, b: string)
    requires SplitsAs(text, [a, b])
    ensures exists sp0, sp1, sp2 :: PairText(text, sp0, a, sp1, b, sp2)
  {
    var g :| Gaps(g, 2) && text == Weave(g, [a, b]);
    assert g == [g[0], g[1], g[2]];
    assert AllSpace(g[0]) && AllSpace(g[1]) && |g[1]| > 0 && AllSpace(g[2]);
    WeaveTwo(g[0], a, g[1], b, g[2]);
    assert PairText(text, g[0], a, g[1], b, g[2]);
  }

  /** `s.split()` is exactly `ws` when, and only when, `s` is the words
      `ws` separated by whitespace: the split is the unique such list. */
  lemma WordsExact(s: string, ws: seq<string>)
    ensures Words(s) == ws <==> SplitsAs(s, ws)
  {
    if SplitsAs(s, ws) {
      var g :| Gaps(g, |ws|) && s == Weave(g, ws);
      WordsOfWeave(g, ws);
    } else {
      WordsSplits(s);
    }
  }

  /** Python's `s.split(sep)`: the pieces between the non-overlapping
      occurrences of `sep`, found from the left. */
  function SplitOn(s: string, sep: string): (r: seq<string>)
    requires |sep| > 0
    ensures |r| >= 1
    decreases |s|
  {
    if |s| < |sep| then [s]
    else if s[..|sep|] == sep then [[]] + SplitOn(s[|sep|..], sep)
    else
      var rest := SplitOn(s[1..], sep);
      [[s[0]] + rest[0]] + rest[1..]
  }

  /** Python's `sep.join(parts)`. */
  function Join(parts: seq<string>, sep: string): string {
    if |parts| == 0 then []
    else if |parts| == 1 then parts[0]
    else parts[0] + sep + Join(parts[1..], sep)
  }

  /** Python's substring test `sep in s`. */
  predicate Contains(s: string, sep: string)
    decreases |s|
  {
    |sep| <= |s| && (s[..|sep|] == sep || Contains(s[1..], sep))
  }

  predicate IsInfix(s: string, a: string, sep: string, b: string) {
    s == a + sep + b
  }

  /** `sep in s` holds exactly when `s` is some `a + sep + b`. */
  lemma {:induction false} ContainsExact(s: string, sep: string)
    ensures Contains(s, sep) <==> exists a, b :: IsInfix(s, a, sep, b)
    decreases |s|
  {
    if Contains(s, sep) {
      if s[..|sep|] == sep {
        assert IsInfix(s, [], sep, s[|sep|..]);
      } else {
        ContainsExact(s[1..], sep);
        var a, b :| IsInfix(s[1..], a, sep, b);
        assert s == [s[0]] + s[1..];
        assert IsInfix(s, [s[0]] + a, sep, b);
      }
    } else if exists a, b :: IsInfix(s, a, sep, b) {
      var a, b :| IsInfix(s, a, sep, b);
      ContainsInfix(a, sep, b);
    }
  }

  lemma NoSpaceConcat(a: string, b: string)
    requires NoSpace(a) && NoSpace(b)
    ensures NoSpace(a + b)
  {
    assert forall i :: |a| <= i < |a + b| ==> (a + b)[i] == b[i - |a|];
  }

  /** Regrouping a concatenation (stated once so that proofs need not
      rediscover it element by element). */
  lemma ConcatAssoc(a: string, b: string, c: string)
    ensures (a + b) + c == a + (b + c)
  {
  }

  lemma {:induction false} TrimStartAfterSpace(sp: string, s: string)
    requires forall i :: 0 <= i < |sp| ==> IsSpace(sp[i])
    ensures TrimStart(sp + s) == TrimStart(s)
    decreases |sp|
  {
    if |sp| > 0 {
      assert (sp + s)[1..] == sp[1..] + s;
      TrimStartAfterSpace(sp[1..], s);
    } else {
      assert sp + s == s;
    }
  }

  lemma {:induction false} LeadingWordOfWord(w: string, s: string)
    requires NoSpace(w)
    requires |s| == 0 || IsSpace(s[0])
    ensures LeadingWord(w + s) == w
    decreases |w|
  {
    if |w| > 0 {
      assert (w + s)[1..] == w[1..] + s;
      LeadingWordOfWord(w[1..], s);
    }
  }

  /** A word followed by whitespace splits off as the first word. */
  lemma WordsCons(w: string, c: char, s: string)
    requires IsWord(w) && IsSpace(c)
    ensures Words(w + [c] + s) == [w] + Words(s)
  {
    var t := w + [c] + s;
    assert TrimStart(t) == t;
    assert t == w + ([c] + s);
    LeadingWordOfWord(w, [c] + s);
    assert t[|w|..] == [c] + s;
    TrimStartAfterSpace([c], s);
    assert Words([c] + s) == Words(s);
  }

  /** A single word splits into itself. */
  lemma WordsOfWord(w: string)
    requires IsWord(w)
    ensures Words(w) == [w]
  {
    assert TrimStart(w) == w;
    LeadingWordOfWord(w, []);
    assert w + [] == w;
    assert w[|w|..] == [];
  }

  /** The words of text that is words each followed by a space are those
      words: `" ".join(ws) + " "` splits back into `ws`. */
  lemma {:induction false} WordsOfSpaced(ws: seq<string>)
    requires forall i :: 0 <= i < |ws| ==> IsWord(ws[i])
    ensures Words(Spaced(ws)) == ws
  {
    if |ws| > 0 {
      WordsOfSpaced(ws[1..]);
      assert Spaced(ws) == ws[0] + [' '] + Spaced(ws[1..]);
      WordsCons(ws[0], ' ', Spaced(ws[1..]));
    }
  }

  /** Each word followed by one space, concatenated. */
  function Spaced(ws: seq<string>): string {
    if |ws| == 0 then [] else ws[0] + " " + Spaced(ws[1..])
  }

  /** Joining the pieces of a split with the separator gives back the
      original string: `sep.join(s.split(sep)) == s`. */
  lemma {:induction false} JoinSplitOn(s: string, sep: string)
    requires |sep| > 0
    ensures Join(SplitOn(s, sep), sep) == s
    decreases |s|
  {
    if |s| < |sep| {
    } else if s[..|sep|] == sep {
      JoinSplitOn(s[|sep|..], sep);
      var rest := SplitOn(s[|sep|..], sep);
      assert Join([[]] + rest, sep) == [] + sep + Join(rest, sep);
      assert s == s[..|sep|] + s[|sep|..];
    } else {
      JoinSplitOn(s[1..], sep);
      var rest := SplitOn(s[1..], sep);
      JoinConsFirst(s[0], rest, sep);
      assert s == [s[0]] + s[1..];
    }
  }

  lemma JoinConsFirst(c: char, parts: seq<string>, sep: string)
    requires |parts| >= 1
    ensures Join([[c] + parts[0]] + parts[1..], sep) == [c] + Join(parts, sep)
  {
    var q := [[c] + parts[0]] + parts[1..];
    assert q[1..] == parts[1..];
  }

  /** A prefix that cannot start the separator is the first piece of the split. */
  lemma {:induction false} SplitOnPrefix(a: string, sep: string, b: string)
    requires |sep| > 0
    requires forall i :: 0 <= i < |a| ==> a[i] != sep[0]
    ensures SplitOn(a + sep + b, sep) == [a] + SplitOn(b, sep)
    decreases |a|
  {
    var s := a + sep + b;
    if |a| == 0 {
      assert s == sep + b;
      assert s[..|sep|] == sep && s[|sep|..] == b;
    } else {
      assert s[0] == a[0] != sep[0];
      assert s[..|sep|] != sep;
      assert s[1..] == a[1..] + sep + b;
      SplitOnPrefix(a[1..], sep, b);
      assert [a[0]] + a[1..] == a;
    }
  }

  /** A string in which the separator cannot start splits into itself. */
  lemma {:induction false} SplitOnNone(a: string, sep: string)
    requires |sep| > 0
    requires forall i :: 0 <= i < |a| ==> a[i] != sep[0]
    ensures SplitOn(a, sep) == [a]
    ensures !Contains(a, sep)
    decreases |a|
  {
    if |a| >= |sep| {
      assert a[..|sep|][0] == a[0] != sep[0];
      SplitOnNone(a[1..], sep);
      assert [a[0]] + a[1..] == a;
    }
  }

  lemma {:induction false} ContainsInfix(a: string, sep: string, b: string)
    ensures Contains(a + sep + b, sep)
    decreases |a|
  {
    var s := a + sep + b;
    if |a| == 0 {
      assert s[..|sep|] == sep;
    } else {
      assert s[1..] == a[1..] + sep + b;
      ContainsInfix(a[1..], sep, b);
    }
  }

  /** Splitting a join gives back the parts, when no part holds the
      first character of the separator. */
  lemma {:induction false} SplitOnJoin(parts: seq<string>, sep: string)
    requires |sep| > 0 && |parts| >= 1
    requires forall i, j :: 0 <= i < |parts| && 0 <= j < |parts[i]| ==> parts[i][j] != sep[0]
    ensures SplitOn(Join(parts, sep), sep) == parts
    decreases |parts|
  {
    if |parts| == 1 {
      SplitOnNone(parts[0], sep);
    } else {
      assert Join(parts, sep) == parts[0] + sep + Join(parts[1..], sep);
      SplitOnPrefix(parts[0], sep, Join(parts[1..], sep));
      SplitOnJoin(parts[1..], sep);
      assert [parts[0]] + parts[1..] == parts;
    }
  }
}
