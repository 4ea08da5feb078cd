/** The batch merge of `save`: the payload lines of one poll, after a
    two-line header, are parsed into (stack, value) pairs and each pair's
    token is appended to the store value of its stack. */
module Collector {
  import opened Wrappers
  import opened Utf8
  import opened Text
  import opened Entry

  /** The dbm store, opened: stack signature to encoded entry. */
  type Store = map<string, string>

  /** One payload line, as the bytes `bytes.splitlines()` yields. */
  type Line = seq<byte>

  /** The value stored under `k`, the empty string when `k` is absent. */
  function Lookup(db: Store, k: string): string {
    if k in db then db[k] else []
  }

  /** `stack, value = line.decode().split()`, with `None` for the
      `ValueError` (a failed decode, or not exactly two words) that makes
      the loop skip the line. */
  function ParseLine(line: Line): (r: Option<(string, string)>)
    ensures r.Some? ==> IsWord(r.value.0) && IsWord(r.value.1)
  {
    var text := Decode(line);
    if text.None? then None
    else
      var ws := Words(text.value);
      if |ws| == 2 then
        Some((ws[0], ws[1]))
      else None
  }

  /** `db[stack] += entry` when the key exists, `db[stack] = entry` when not. */
  function Upsert(db: Store, stack: string, token: string): (r: Store)
    ensures r.Keys == db.Keys + {stack}
    ensures r[stack] == Lookup(db, stack) + token
    ensures forall k :: k in db && k != stack ==> r[k] == db[k]
  {
    if stack in db then db[stack := db[stack] + token] else db[stack := token]
  }

  /** One iteration of the loop of `save`. */
  function Step(db: Store, line: Line, host: string, port: nat, now: nat): Store {
    var p := ParseLine(line);
    if p.None? then db else Upsert(db, p.value.0, Token(Sample(host, port, now, p.value.1)))
  }

  /** The loop of `save` over `lines`, in order. It only ever appends:
      no key is removed and every old value is a prefix of the new one. */
  function MergeLines(db: Store, lines: seq<Line>, host: string, port: nat, now: nat): (r: Store)
    ensures db.Keys <= r.Keys
    ensures forall k {:trigger Lookup(r, k)} :: k in db ==> db[k] <= Lookup(r, k)
    decreases |lines|
  {
    if |lines| == 0 then db
    else MergeLines(Step(db, lines[0], host, port, now), lines[1..], host, port, now)
  }

  /** `data[2:]`: the lines after the header (none when there are fewer than three). */
  function Body(data: seq<Line>): (r: seq<Line>)
    ensures |data| <= 2 ==> r == []
    ensures |data| > 2 ==> data == data[..2] + r
  {
    if |data| <= 2 then [] else data[2..]
  }

  /** `save(data, host, port, dbpath)` with `now` the timestamp taken once
      at its start and `db` the store as opened. */
  function Save(db: Store, data: seq<Line>, host: string, port: nat, now: nat): (r: Store)
    ensures forall k {:trigger SamplesFor(Body(data), k, host, port, now)} ::
      k in r <==> k in db || |SamplesFor(Body(data), k, host, port, now)| > 0
    ensures forall k {:trigger Lookup(r, k)} :: Lookup(r, k) == Lookup(db, k) + EncodeEntry(SamplesFor(Body(data), k, host, port, now))
  {
    MergeLinesEveryKey(db, Body(data), host, port, now);
    MergeLines(db, Body(data), host, port, now)
  }

  /** Reference definition: the samples the lines contribute to key `k`,
      in line order. Every one carries the same host, port and timestamp. */
  function SamplesFor(lines: seq<Line>, k: string, host: string, port: nat, now: nat): (r: seq<Sample>)
    ensures |r| <= |lines|
    ensures forall i :: 0 <= i < |r| ==>
      r[i].host == host && r[i].port == port && r[i].timestamp == now && IsWord(r[i].value)
  {
    if |lines| == 0 then [] else SampleAt(lines[0], k, host, port, now) + SamplesFor(lines[1..], k, host, port, now)
  }

  /** The sample one line contributes to key `k`: none, or one. */
  function SampleAt(line: Line, k: string, host: string, port: nat, now: nat): seq<Sample> {
    var p := ParseLine(line);
    if p.Some? && p.value.0 == k then [Sample(host, port, now, p.value.1)] else []
  }

  /** One iteration of the loop: key `k` gains the token of this line
      when the line names `k`, and nothing otherwise. */
  lemma StepAt(db: Store, line: Line, host: string, port: nat, now: nat, k: string)
    ensures var r := Step(db, line, host, port, now);
      var here := SampleAt(line, k, host, port, now);
      && (k in r <==> k in db || |here| > 0)
      && Lookup(r, k) == Lookup(db, k) + EncodeEntry(here)
  {
    var p := ParseLine(line);
    if p.Some? {
      EncodeEntrySingle(Sample(host, port, now, p.value.1));
    } else {
      assert EncodeEntry([]) == [];
    }
  }

  /** The effect of the loop on one key: its old value (or nothing),
      followed by the tokens of the lines that name it, in line order;
      the key is present afterwards exactly when it was before or some
      line names it. */
  lemma {:induction false} MergeLinesAt(db: Store, lines: seq<Line>, host: string, port: nat, now: nat, k: string)
    ensures var r := MergeLines(db, lines, host, port, now);
      && (k in r <==> k in db || |SamplesFor(lines, k, host, port, now)| > 0)
      && Lookup(r, k) == Lookup(db, k) + EncodeEntry(SamplesFor(lines, k, host, port, now))
    decreases |lines|
  {
    if |lines| > 0 {
      var next := Step(db, lines[0], host, port, now);
      StepAt(db, lines[0], host, port, now, k);
      MergeLinesAt(next, lines[1..], host, port, now, k);
      var here, rest := SampleAt(lines[0], k, host, port, now), SamplesFor(lines[1..], k, host, port, now);
      EncodeEntryAppend(here, rest);
      ConcatAssoc(Lookup(db, k), EncodeEntry(here), EncodeEntry(rest));
    } else {
      assert EncodeEntry([]) == [];
    }
  }

  lemma MergeLinesEveryKey(db: Store, lines: seq<Line>, host: string, port: nat, now: nat)
    ensures var r := MergeLines(db, lines, host, port, now);
      forall k :: (k in r <==> k in db || |SamplesFor(lines, k, host, port, now)| > 0)
        && Lookup(r, k) == Lookup(db, k) + EncodeEntry(SamplesFor(lines, k, host, port, now))
  {
    forall k {
      MergeLinesAt(db, lines, host, port, now, k);
    }
  }

  /** Saving is append-only: no key disappears and every old value is a
      prefix of the new one. */
  lemma SaveAppendOnly(db: Store, data: seq<Line>, host: string, port: nat, now: nat)
    ensures var r := Save(db, data, host, port, now);
      db.Keys <= r.Keys && forall k :: k in db ==> db[k] <= r[k]
  {
    var r := Save(db, data, host, port, now);
    forall k | k in db
      ensures k in r && db[k] <= r[k]
    {
      assert Lookup(r, k) == Lookup(db, k) + EncodeEntry(SamplesFor(Body(data), k, host, port, now));
    }
  }

  /** The two header lines never reach the store, whatever they hold. */
  lemma SaveIgnoresHeader(db: Store, h1: Line, h2: Line, g1: Line, g2: Line, rest: seq<Line>, host: string, port: nat, now: nat)
    ensures Save(db, [h1, h2] + rest, host, port, now) == Save(db, [g1, g2] + rest, host, port, now)
  {
    assert Body([h1, h2] + rest) == Body([g1, g2] + rest);
  }

  lemma {:induction false} MergeLinesAppend(db: Store, a: seq<Line>, b: seq<Line>, host: string, port: nat, now: nat)
    ensures MergeLines(db, a + b, host, port, now) == MergeLines(MergeLines(db, a, host, port, now), b, host, port, now)
    decreases |a|
  {
    if |a| > 0 {
      assert (a + b)[1..] == a[1..] + b;
      MergeLinesAppend(Step(db, a[0], host, port, now), a[1..], b, host, port, now);
    } else {
      assert a + b == b;
    }
  }

  /** A line that fails to decode or does not split into exactly two words
      is skipped and the rest of the batch is still merged: inserting it
      anywhere after the header leaves the outcome unchanged. */
  lemma SaveSkipsMalformed(db: Store, data: seq<Line>, i: nat, bad: Line, host: string, port: nat, now: nat)
    requires 2 <= i <= |data|
    requires ParseLine(bad).None?
    ensures Save(db, data[..i] + [bad] + data[i..], host, port, now) == Save(db, data, host, port, now)
  {
    var data2 := data[..i] + [bad] + data[i..];
    var a, b := data[2..i], data[i..];
    assert Body(data2) == a + ([bad] + b) by {
      assert data2[2..] == a + ([bad] + b);
    }
    assert Body(data) == a + b by {
      assert data[2..] == a + b;
    }
    assert Save(db, data2, host, port, now) == MergeLines(db, a + ([bad] + b), host, port, now);
    assert Save(db, data, host, port, now) == MergeLines(db, a + b, host, port, now);
    MergeLinesSkips(db, a, bad, b, host, port, now);
  }

  lemma MergeLinesSkips(db: Store, a: seq<Line>, bad: Line, b: seq<Line>, host: string, port: nat, now: nat)
    requires ParseLine(bad).None?
    ensures MergeLines(db, a + ([bad] + b), host, port, now) == MergeLines(db, a + b, host, port, now)
  {
    var m := MergeLines(db, a, host, port, now);
    assert MergeLines(db, a + ([bad] + b), host, port, now) == MergeLines(m, [bad] + b, host, port, now) by {
      MergeLinesAppend(db, a, [bad] + b, host, port, now);
    }
    assert MergeLines(db, a + b, host, port, now) == MergeLines(m, b, host, port, now) by {
      MergeLinesAppend(db, a, b, host, port, now);
    }
    assert MergeLines(m, [bad] + b, host, port, now) == MergeLines(m, b, host, port, now) by {
      assert Step(m, bad, host, port, now) == m;
      assert ([bad] + b)[1..] == b;
    }
  }
  /** The parser drops exactly the malformed lines: a line holding two
      words separated by whitespace yields that pair. */
  lemma ParseLinePair(stack: string, c: char, value: string)
    requires IsWord(stack) && IsSpace(c) && IsWord(value)
    ensures ParseLine(Encode(stack + [c] + value)) == Some((stack, value))
  {
    DecodeEncode(stack + [c] + value);
    WordsCons(stack, c, value);
    WordsOfWord(value);
  }

  /** A line is accepted as `(stack, value)` exactly when it decodes to
      those two words separated by whitespace, with any whitespace before
      and after; every other line is dropped. */
  lemma ParseLineExact(line: Line, stack: string, value: string)
    ensures ParseLine(line) == Some((stack, value))
      <==> Decode(line).Some? && SplitsAs(Decode(line).value, [stack, value])
  {
    if Decode(line).Some? {
      ParseLineWords(line, stack, value);
      WordsExact(Decode(line).value, [stack, value]);
    }
  }

  /** A decodable line is accepted as `(stack, value)` exactly when its
      split is those two words. */
  lemma ParseLineWords(line: Line, stack: string, value: string)
    requires Decode(line).Some?
    ensures ParseLine(line) == Some((stack, value)) <==> Words(Decode(line).value) == [stack, value]
  {
    var ws := Words(Decode(line).value);
    assert ParseLine(line) == if |ws| == 2 then Some((ws[0], ws[1])) else None;
    PairOfWords(ws, stack, value);
  }

  lemma PairOfWords(ws: seq<string>, a: string, b: string)
    ensures (|ws| == 2 && ws[0] == a && ws[1] == b) <==> ws == [a, b]
  {
    if |ws| == 2 {
      assert ws == [ws[0], ws[1]];
    }
  }

  /** The number of words decides: a line of words separated by
      whitespace runs (blank, one word, three or more) is dropped unless
      it holds exactly two. */
  lemma ParseLineWordCount(gaps: seq<string>, ws: seq<string>)
    requires Gaps(gaps, |ws|)
    requires forall i :: 0 <= i < |ws| ==> IsWord(ws[i])
    ensures ParseLine(Encode(Weave(gaps, ws))) == if |ws| == 2 then Some((ws[0], ws[1])) else None
  {
    DecodeEncode(Weave(gaps, ws));
    WordsOfWeave(gaps, ws);
  }

  /** Whitespace runs around and between the two words do not matter. */
  lemma ParseLineSpaced(sp0: string, stack: string, sp1: string, value: string, sp2: string)
    requires AllSpace(sp0) && AllSpace(sp1) && |sp1| > 0 && AllSpace(sp2)
    requires IsWord(stack) && IsWord(value)
    ensures ParseLine(Encode(sp0 + stack + sp1 + value + sp2)) == Some((stack, value))
  {
    var gaps, ws := [sp0, sp1, sp2], [stack, value];
    assert Gaps(gaps, 2);
    WeaveTwo(sp0, stack, sp1, value, sp2);
    ParseLineWordCount(gaps, ws);
  }

  /** The converse of `ParseLineSpaced`: an accepted line is valid UTF-8
      whose text is the stack and the value, whitespace around and
      between them, and nothing else. */
  lemma ParseLineAccepted(line: Line, stack: string, value: string)
    requires ParseLine(line) == Some((stack, value))
    ensures IsWord(stack) && IsWord(value) && Decode(line).Some?
    ensures exists sp0, sp1, sp2 :: PairText(Decode(line).value, sp0, stack, sp1, value, sp2)
  {
    ParseLineExact(line, stack, value);
    SplitsAsPair(Decode(line).value, stack, value);
  }

  /** A line of three words is dropped: `stack, value = ...` cannot
      unpack three names. */
  lemma ParseLineThreeWords(a: string, c1: char, b: string, c2: char, c: string)
    requires IsWord(a) && IsWord(b) && IsWord(c) && IsSpace(c1) && IsSpace(c2)
    ensures ParseLine(Encode(a + [c1] + b + [c2] + c)) == None
  {
    var tail := b + [c2] + c;
    assert a + [c1] + b + [c2] + c == a + [c1] + tail;
    DecodeEncode(a + [c1] + tail);
    assert |Words(a + [c1] + tail)| == 3 by {
      WordsCons(a, c1, tail);
      WordsCons(b, c2, c);
      WordsOfWord(c);
    }
  }

  /** A line holding a single word is dropped. */
  lemma ParseLineSingleWord(w: string)
    requires IsWord(w)
    ensures ParseLine(Encode(w)) == None
  {
    DecodeEncode(w);
    WordsOfWord(w);
  }

  /** A line that is not valid UTF-8 is dropped. */
  lemma ParseLineUndecodable(line: Line)
    requires Decode(line).None?
    ensures ParseLine(line) == None
  {
  }
}
