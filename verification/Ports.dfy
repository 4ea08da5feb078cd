/** The `--ports` option of `run`: a range `A..B`, a comma list, or a
    single port, read into the list of ports to poll. */
module Ports {
  import opened Wrappers
  import opened Text
  import opened Numerals

  /** Python's `range(start, stop)`: `start`, `start + 1`, ..., `stop - 1`. */
  function Range(start: nat, stop: int): (r: seq<nat>)
    ensures |r| == if stop <= start then 0 else stop - start
    ensures forall i :: 0 <= i < |r| ==> r[i] == start + i
    decreases stop - start
  {
    if stop <= start then [] else [start] + Range(start + 1, stop)
  }

  /** `[int(p) for p in parts]`: every part read, or `None` when one fails. */
  function ParseEach(parts: seq<string>): (r: Option<seq<nat>>)
    ensures r.Some? ==> (|r.value| == |parts|
      && forall i :: 0 <= i < |parts| ==> ParseDecimal(parts[i]) == Some(r.value[i]))
    ensures r.None? ==> exists i :: 0 <= i < |parts| && ParseDecimal(parts[i]).None?
  {
    if |parts| == 0 then Some([])
    else match (ParseDecimal(parts[0]), ParseEach(parts[1..]))
      case (Some(p), Some(rest)) => Some([p] + rest)
      case (None, _) => None
      case (_, None) => None
  }

  /** The parsing block of `run`; `None` stands for the `ValueError` an
      unreadable spec raises. */
  function ParsePorts(spec: string): Option<seq<nat>> {
    if Contains(spec, "..") then
      // `start, end = ports.split('..')` needs exactly two pieces
      var parts := SplitOn(spec, "..");
      if |parts| != 2 then None
      else match (ParseDecimal(parts[0]), ParseDecimal(parts[1]))
        case (Some(start), Some(end)) => Some(Range(start, end + 1))
        case _ => None
    else if Contains(spec, ",") then
      ParseEach(SplitOn(spec, ","))
    else
      match ParseDecimal(spec)
      case Some(p) => Some([p])
      case None => None
  }

  /** The values of a list of numerals, in order. */
  function ValuesOf(ds: seq<string>): (r: seq<nat>)
    requires forall i :: 0 <= i < |ds| ==> AllDigits(ds[i])
    ensures |r| == |ds|
    ensures forall i :: 0 <= i < |r| ==> r[i] == DigitsValue(ds[i])
  {
    if |ds| == 0 then [] else [DigitsValue(ds[0])] + ValuesOf(ds[1..])
  }

  /** `A..B` with numerals A and B, read as the inclusive range from A to B. */
  predicate IsRange(spec: string, a: string, b: string, ps: seq<nat>) {
    && IsNumeral(a) && IsNumeral(b)
    && spec == a + ".." + b
    && ps == Range(DigitsValue(a), DigitsValue(b) + 1)
  }

  /** Two or more numerals joined by commas, read as their values in order. */
  predicate IsList(spec: string, ds: seq<string>, ps: seq<nat>) {
    && |ds| >= 2
    && AllNumerals(ds)
    && spec == Join(ds, ",")
    && ps == ValuesOf(ds)
  }

  /** One numeral, read as the one-element list of its value. */
  predicate IsSingle(spec: string, ps: seq<nat>) {
    IsNumeral(spec) && ps == [DigitsValue(spec)]
  }

  /** Reference definition of what `--ports` accepts and what it reads as. */
  ghost predicate ReadsAs(spec: string, ps: seq<nat>) {
    || (exists a, b :: IsRange(spec, a, b, ps))
    || (exists ds :: IsList(spec, ds, ps))
    || IsSingle(spec, ps)
  }

  /** The comma branch: a successful read of the pieces of `spec` is a
      list or, for a single piece, a single port. */
  lemma ParseEachShape(spec: string, parts: seq<string>, r: Option<seq<nat>>)
    requires |parts| >= 1 && spec == Join(parts, ",")
    requires r == ParseEach(parts)
    ensures r.Some? ==> ReadsAs(spec, r.value)
  {
    if r.Some? {
      assert AllNumerals(parts);
      assert r.value == ValuesOf(parts);
      if |parts| == 1 {
        assert IsSingle(spec, r.value);
      } else {
        assert IsList(spec, parts, r.value);
      }
    }
  }

  /** `"A..B"` with numerals A and B reads as the inclusive range from A
      to B, which is empty when B < A. */
  lemma ParseRangeSpec(a: string, b: string)
    requires IsNumeral(a) && IsNumeral(b)
    ensures ParsePorts(a + ".." + b) == Some(Range(DigitsValue(a), DigitsValue(b) + 1))
    ensures DigitsValue(b) < DigitsValue(a) ==> ParsePorts(a + ".." + b) == Some([])
  {
    var spec := a + ".." + b;
    ContainsInfix(a, "..", b);
    assert SplitOn(spec, "..") == [a, b] by {
      SplitOnPrefix(a, "..", b);
      SplitOnNone(b, "..");
    }
    ParseRangeParts(spec, a, b);
  }

  lemma ParseRangeParts(spec: string, a: string, b: string)
    requires IsNumeral(a) && IsNumeral(b)
    requires Contains(spec, "..") && SplitOn(spec, "..") == [a, b]
    ensures ParsePorts(spec) == Some(Range(DigitsValue(a), DigitsValue(b) + 1))
  {
    assert ParseDecimal(a) == Some(DigitsValue(a));
    assert ParseDecimal(b) == Some(DigitsValue(b));
  }

  /** A spec with two `..` does not unpack into a start and an end,
      whatever stands around them, as long as it holds no further `.`. */
  lemma ParseRejectsTwoRanges(a: string, b: string, c: string)
    requires forall i :: 0 <= i < |a| ==> a[i] != '.'
    requires forall i :: 0 <= i < |b| ==> b[i] != '.'
    requires forall i :: 0 <= i < |c| ==> c[i] != '.'
    ensures ParsePorts(a + ".." + b + ".." + c) == None
  {
    var spec := a + ".." + b + ".." + c;
    var tail := b + ".." + c;
    assert spec == a + ".." + tail;
    assert Contains(spec, "..") by {
      ContainsInfix(a, "..", tail);
    }
    assert SplitOn(tail, "..") == [b, c] by {
      SplitOnPrefix(b, "..", c);
      SplitOnNone(c, "..");
    }
    assert SplitOn(spec, "..") == [a, b, c] by {
      SplitOnPrefix(a, "..", tail);
    }
  }

  predicate IsListChar(c: char) {
    IsDigit(c) || c == ','
  }

  lemma {:induction false} JoinListChars(parts: seq<string>)
    requires forall i :: 0 <= i < |parts| ==> AllDigits(parts[i])
    ensures forall j :: 0 <= j < |Join(parts, ",")| ==> IsListChar(Join(parts, ",")[j])
    decreases |parts|
  {
    if |parts| > 1 {
      JoinListChars(parts[1..]);
      var rest := Join(parts[1..], ",");
      var s := Join(parts, ",");
      assert s == parts[0] + "," + rest;
      forall j | 0 <= j < |s| ensures IsListChar(s[j]) {
        if j < |parts[0]| {
          assert s[j] == parts[0][j];
        } else if j > |parts[0]| {
          assert s[j] == rest[j - |parts[0]| - 1];
        }
      }
    }
  }

  /** Numerals, read one by one, give their values. */
  lemma ParseEachNumerals(ds: seq<string>)
    requires AllNumerals(ds)
    ensures ParseEach(ds) == Some(ValuesOf(ds))
  {
    var r := ParseEach(ds);
    assert r.Some?;
    assert forall i :: 0 <= i < |ds| ==> r.value[i] == ValuesOf(ds)[i];
  }

  /** A comma list of numerals reads as their values, in order (a
      one-element list is a single port). */
  lemma ParseListSpec(ds: seq<string>)
    requires |ds| >= 1
    requires AllNumerals(ds)
    ensures ParsePorts(Join(ds, ",")) == Some(ValuesOf(ds))
  {
    if |ds| == 1 {
      assert Join(ds, ",") == ds[0];
      assert IsNumeral(ds[0]);
      ParseSingleSpec(ds[0]);
      assert ValuesOf(ds) == [DigitsValue(ds[0])];
    } else {
      ParseListOfMany(ds);
    }
  }

  lemma ParseListOfMany(ds: seq<string>)
    requires |ds| >= 2
    requires AllNumerals(ds)
    ensures ParsePorts(Join(ds, ",")) == Some(ValuesOf(ds))
  {
    var spec := Join(ds, ",");
    assert !Contains(spec, "..") by {
      JoinListChars(ds);
      SplitOnNone(spec, "..");
    }
    assert Contains(spec, ",") by {
      assert spec == ds[0] + "," + Join(ds[1..], ",");
      ContainsInfix(ds[0], ",", Join(ds[1..], ","));
    }
    assert ParsePorts(spec) == ParseEach(SplitOn(spec, ","));
    assert SplitOn(spec, ",") == ds by {
      SplitOnJoin(ds, ",");
    }
    ParseEachNumerals(ds);
  }

  /** A numeral, with neither `..` nor `,`, reads as a single port. */
  lemma ParseSingleSpec(s: string)
    requires IsNumeral(s)
    ensures ParsePorts(s) == Some([DigitsValue(s)])
  {
    SplitOnNone(s, "..");
    SplitOnNone(s, ",");
  }

  /** A spec that reads has one of the three shapes of `ReadsAs`, and
      reads as what that shape denotes. */
  lemma ParsePortsSound(spec: string)
    ensures ParsePorts(spec).Some? ==> ReadsAs(spec, ParsePorts(spec).value)
  {
    if Contains(spec, "..") {
      var parts := SplitOn(spec, "..");
      if |parts| == 2 && ParseDecimal(parts[0]).Some? && ParseDecimal(parts[1]).Some? {
        JoinSplitOn(spec, "..");
        assert IsRange(spec, parts[0], parts[1], ParsePorts(spec).value);
      }
    } else if Contains(spec, ",") {
      var parts := SplitOn(spec, ",");
      JoinSplitOn(spec, ",");
      ParseEachShape(spec, parts, ParseEach(parts));
    }
  }

  /** `--ports` reads as `ps` exactly when the spec has one of the three
      shapes and `ps` is what that shape denotes. */
  lemma ParsePortsExact(spec: string, ps: seq<nat>)
    ensures ParsePorts(spec) == Some(ps) <==> ReadsAs(spec, ps)
  {
    ParsePortsSound(spec);
    if ReadsAs(spec, ps) {
      if exists a, b :: IsRange(spec, a, b, ps) {
        var a, b :| IsRange(spec, a, b, ps);
        ParseRangeSpec(a, b);
      } else if exists ds :: IsList(spec, ds, ps) {
        var ds :| IsList(spec, ds, ps);
        ParseListSpec(ds);
      } else {
        ParseSingleSpec(spec);
      }
    }
  }

  /** Rendered ports, joined by commas, read back as the ports. */
  lemma ParsePortsOfDecimals(ps: seq<nat>)
    requires |ps| >= 1
    ensures ParsePorts(Join(Decimals(ps), ",")) == Some(ps)
  {
    var ds := Decimals(ps);
    forall i | 0 <= i < |ps| ensures DigitsValue(ds[i]) == ps[i] {
      ParseDecimalOfDecimal(ps[i]);
    }
    ParseListSpec(ds);
    assert ValuesOf(ds) == ps;
  }

  function Decimals(ps: seq<nat>): (r: seq<string>)
    ensures |r| == |ps|
    ensures forall i :: 0 <= i < |r| ==> r[i] == Decimal(ps[i])
  {
    if |ps| == 0 then [] else [Decimal(ps[0])] + Decimals(ps[1..])
  }

  /** Leading zeros are read through: `07..9` is the range 7, 8, 9. */
  lemma ParseRangeExample()
    ensures ParsePorts("07..9") == Some([7, 8, 9])
  {
    assert "07..9" == "07" + ".." + "9";
    ParseRangeSpec("07", "9");
    assert DigitsValue("07") == 7 && DigitsValue("9") == 9;
    assert Range(7, 10) == [7, 8, 9];
  }

  /** `80,443` is the two ports in order. */
  lemma ParseListExample()
    ensures ParsePorts("80,443") == Some([80, 443])
  {
    var ds := ["80", "443"];
    assert Join(ds, ",") == "80,443";
    assert DigitsValue("80") == 80;
    assert DigitsValue("443") == 443 by {
      assert "443"[..2] == "44";
      assert DigitsValue("44") == 44;
    }
    assert AllNumerals(ds);
    assert ValuesOf(ds) == [80, 443];
    ParseListSpec(ds);
  }

  /** A decimal point and the empty spec are errors. */
  lemma ParseRejectExamples()
    ensures ParsePorts("1.5") == None
    ensures ParsePorts("") == None
  {
    assert !ParseDecimal("1.5").Some?;
  }

  /** A trailing comma and a range without a start are errors: one of
      the parts is empty, and `int('')` fails. */
  lemma ParseRejectEmptyPart()
    ensures ParsePorts("1,") == None
    ensures ParsePorts("..2") == None
  {
    assert SplitOn("..2", "..") == ["", "2"] by {
      assert "..2" == "" + ".." + "2";
      SplitOnPrefix("", "..", "2");
      SplitOnNone("2", "..");
    }
    assert SplitOn("1,", ",") == ["1", ""] by {
      assert "1," == "1" + "," + "";
      SplitOnPrefix("1", ",", "");
    }
  }

  /** The characters a readable spec can hold. */
  predicate IsSpecChar(c: char) {
    IsDigit(c) || c == '.' || c == ','
  }

  /** A part that is not an integer makes the whole spec an error: a spec
      that reads holds nothing but digits, `.` and `,`, so any other
      character is rejected, in every form. */
  lemma ParseRejectsNonInteger(spec: string)
    ensures ParsePorts(spec).Some? ==> forall j :: 0 <= j < |spec| ==> IsSpecChar(spec[j])
  {
    if ParsePorts(spec).Some? {
      if Contains(spec, "..") {
        var parts := SplitOn(spec, "..");
        assert |parts| == 2 && AllDigits(parts[0]) && AllDigits(parts[1]);
        JoinSplitOn(spec, "..");
        assert spec == parts[0] + ".." + parts[1];
        forall j | 0 <= j < |spec| ensures IsSpecChar(spec[j]) {
          if j < |parts[0]| {
            assert spec[j] == parts[0][j];
          } else if j >= |parts[0]| + 2 {
            assert spec[j] == parts[1][j - |parts[0]| - 2];
          }
        }
      } else if Contains(spec, ",") {
        var parts := SplitOn(spec, ",");
        assert forall i :: 0 <= i < |parts| ==> AllDigits(parts[i]);
        JoinSplitOn(spec, ",");
        JoinListChars(parts);
      }
    }
  }
}
