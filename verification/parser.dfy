/**
 * `parseAcceptable`: from a raw header string to one `Value` per
 * comma-separated piece (src/Request/Accept/AbstractValues.php, lines 63-95).
 */
module Parser {
  import opened Wrappers
  import opened Text
  import opened Values

  // ---------------------------------------------------------------------------
  // The parameter pattern  ^(?P<name>.+?)=(?P<quoted>"|')?(?P<value>.*?)(?:\k<quoted>)?$
  // ---------------------------------------------------------------------------

  /** A successful match of the parameter pattern. */
  datatype ParamMatch = ParamMatch(name: string, value: string)

  predicate IsQuote(c: char)
  {
    c == '"' || c == '\''
  }

  /**
   * The part of a segment the pattern can span: without `/s` the dot does not
   * match a line feed, and without `/D` the final `$` also matches just
   * before one trailing line feed.
   */
  function Body(seg: string): (b: string)
    ensures seg == b || seg == b + "\n"
  {
    if |seg| > 0 && seg[|seg| - 1] == '\n' then seg[..|seg| - 1] else seg
  }

  /** First index `k >= from` with `s[k] == '='`, or `|s|` when there is none. */
  function FindEquals(s: string, from: nat): (k: nat)
    ensures k == |s| || (from <= k < |s| && s[k] == '=')
    ensures forall i :: from <= i < k && i < |s| ==> s[i] != '='
    decreases |s| - from
  {
    if from >= |s| then |s|
    else if s[from] == '=' then from
    else FindEquals(s, from + 1)
  }

  /**
   * The captured value: the optional quote group always consumes a leading
   * quote, and the optional back-reference strips a closing quote only when
   * it is the same character and distinct from the opening one.
   */
  function Unquote(raw: string): (v: string)
    ensures |v| <= |raw|
    ensures (|raw| == 0 || !IsQuote(raw[0])) ==> v == raw
  {
    if |raw| > 0 && IsQuote(raw[0]) then
      if |raw| >= 2 && raw[|raw| - 1] == raw[0] then raw[1..|raw| - 1] else raw[1..]
    else raw
  }

  /** Quoting a text with either quote character and unquoting gives the text back. */
  lemma UnquoteQuoted(q: char, t: string)
    requires IsQuote(q)
    ensures Unquote([q] + t + [q]) == t
  {
    var raw := [q] + t + [q];
    assert raw[1..|raw| - 1] == t;
  }

  /** An opening quote without its partner is still removed. */
  lemma UnquoteUnbalanced(q: char, t: string)
    requires IsQuote(q)
    requires |t| == 0 || t[|t| - 1] != q
    ensures Unquote([q] + t) == t
  {
  }

  /**
   * The effect of `preg_match` with the parameter pattern on one segment:
   * the name is the (untrimmed) text before the first `=` that has at least
   * one byte in front of it, the value is the rest with its quotes removed.
   */
  function MatchParam(seg: string): (m: Option<ParamMatch>)
    ensures m.Some? <==>
              && '\n' !in Body(seg)
              && exists k :: 1 <= k < |Body(seg)| && Body(seg)[k] == '='
    ensures m.Some? ==>
              && 1 <= |m.value.name| < |Body(seg)|
              && Body(seg)[..|m.value.name|] == m.value.name
              && Body(seg)[|m.value.name|] == '='
              && '=' !in m.value.name[1..]
              && m.value.value == Unquote(Body(seg)[|m.value.name| + 1..])
  {
    var body := Body(seg);
    if '\n' in body then None
    else
      var k := FindEquals(body, 1);
      if k == |body| then None
      else
        Some(ParamMatch(body[..k], Unquote(body[k + 1..])))
  }

  // ---------------------------------------------------------------------------
  // The parameter map
  // ---------------------------------------------------------------------------

  /**
   * The key a segment is stored under: the matched name, or, when the
   * pattern does not match, PHP's `null` index, which becomes the key "".
   */
  function SegmentName(seg: string): string
  {
    match MatchParam(seg)
    case Some(m) => m.name
    case None => ""
  }

  /** The value a segment stores: the captured text, or `null` when it does not match. */
  function SegmentValue(seg: string): ParamValue
  {
    match MatchParam(seg)
    case Some(m) => Str(m.value)
    case None => Null
  }

  /** The last pair with the same key as pair `i` is pair `i` itself. */
  predicate LastKey(pairs: seq<(string, ParamValue)>, i: int)
    requires 0 <= i < |pairs|
  {
    forall j :: i < j < |pairs| ==> pairs[j].0 != pairs[i].0
  }

  /** The keys written by `pairs`. */
  function PairKeys(pairs: seq<(string, ParamValue)>): set<string>
  {
    set i | 0 <= i < |pairs| :: pairs[i].0
  }

  /** Writing `pairs` into an empty PHP array one after the other. */
  function Store(pairs: seq<(string, ParamValue)>): map<string, ParamValue>
  {
    if |pairs| == 0 then map[]
    else Store(pairs[..|pairs| - 1])[pairs[|pairs| - 1].0 := pairs[|pairs| - 1].1]
  }

  /** Every key that is written is present, and no other. */
  lemma {:induction false} StoreKeys(pairs: seq<(string, ParamValue)>)
    ensures Store(pairs).Keys == PairKeys(pairs)
  {
    if |pairs| > 0 {
      StoreKeys(pairs[..|pairs| - 1]);
      PairKeysStep(pairs);
    }
  }

  /** A key holds the value of the last pair that writes it. */
  lemma {:induction false} StoreLast(pairs: seq<(string, ParamValue)>, i: int)
    requires 0 <= i < |pairs| && LastKey(pairs, i)
    ensures pairs[i].0 in Store(pairs) && Store(pairs)[pairs[i].0] == pairs[i].1
  {
    var init := pairs[..|pairs| - 1];
    var last := pairs[|pairs| - 1];
    if i < |init| {
      assert init[i] == pairs[i];
      assert last.0 != pairs[i].0;
      assert LastKey(init, i) by {
        forall j | i < j < |init| ensures init[j].0 != init[i].0 {
          assert init[j] == pairs[j];
        }
      }
      StoreLast(init, i);
    }
  }

  /** Every stored value was written by some pair with that key. */
  lemma {:induction false} StoreFrom(pairs: seq<(string, ParamValue)>, k: string)
    requires k in Store(pairs)
    ensures exists i :: 0 <= i < |pairs| && pairs[i].0 == k && Store(pairs)[k] == pairs[i].1
  {
    var init := pairs[..|pairs| - 1];
    if pairs[|pairs| - 1].0 != k {
      StoreFrom(init, k);
      var i :| 0 <= i < |init| && init[i].0 == k && Store(init)[k] == init[i].1;
      assert pairs[i] == init[i];
    }
  }

  lemma PairKeysStep(pairs: seq<(string, ParamValue)>)
    requires |pairs| > 0
    ensures PairKeys(pairs) == PairKeys(pairs[..|pairs| - 1]) + {pairs[|pairs| - 1].0}
  {
    var init := pairs[..|pairs| - 1];
    var last := pairs[|pairs| - 1];
    forall k | k in PairKeys(pairs) ensures k in PairKeys(init) + {last.0} {
      var i :| 0 <= i < |pairs| && pairs[i].0 == k;
      if i < |init| {
        assert init[i] == pairs[i];
        assert k in PairKeys(init);
      } else {
        assert i == |pairs| - 1;
      }
    }
    forall k | k in PairKeys(init) ensures k in PairKeys(pairs) {
      var i :| 0 <= i < |init| && init[i].0 == k;
      assert pairs[i] == init[i];
    }
  }

  /** The (key, value) pair each parameter segment writes. */
  function SegmentPairs(segs: seq<string>): (pairs: seq<(string, ParamValue)>)
    ensures |pairs| == |segs|
    ensures forall i :: 0 <= i < |segs| ==> pairs[i] == (SegmentName(segs[i]), SegmentValue(segs[i]))
  {
    seq(|segs|, i requires 0 <= i < |segs| => (SegmentName(segs[i]), SegmentValue(segs[i])))
  }

  /** No later segment stores under the same key as segment `i`. */
  predicate LastNamed(segs: seq<string>, i: int)
    requires 0 <= i < |segs|
  {
    forall j :: i < j < |segs| ==> SegmentName(segs[j]) != SegmentName(segs[i])
  }

  /**
   * The inner loop of `parseAcceptable`: every segment is written into the
   * map in order, so a later segment with the same name overwrites an
   * earlier one.
   */
  function ParseParams(segs: seq<string>): map<string, ParamValue>
  {
    Store(SegmentPairs(segs))
  }

  /** The keys are exactly the segments' names, and each name holds the value of its last segment. */
  lemma ParseParamsSpec(segs: seq<string>)
    ensures ParseParams(segs).Keys == set i | 0 <= i < |segs| :: SegmentName(segs[i])
    ensures forall i :: 0 <= i < |segs| ==> SegmentName(segs[i]) in ParseParams(segs)
    ensures forall i :: 0 <= i < |segs| && LastNamed(segs, i) ==>
              ParseParams(segs)[SegmentName(segs[i])] == SegmentValue(segs[i])
  {
    var pairs := SegmentPairs(segs);
    StoreKeys(pairs);
    assert PairKeys(pairs) == set i | 0 <= i < |segs| :: SegmentName(segs[i]);
    assert forall i :: 0 <= i < |segs| && LastNamed(segs, i) ==> LastKey(pairs, i);
    forall i | 0 <= i < |segs| && LastKey(pairs, i) ensures Store(pairs)[pairs[i].0] == pairs[i].1 {
      StoreLast(pairs, i);
    }
  }

  /** Only a matching segment can be stored under the name `q`, so its value is never `null`. */
  lemma QualityParamIsText(seg: string)
    requires SegmentName(seg) == "q"
    ensures SegmentValue(seg).Str?
  {
  }

  // ---------------------------------------------------------------------------
  // `(float) $quality`, in thousandths
  // ---------------------------------------------------------------------------

  predicate IsDigit(c: char)
  {
    '0' <= c <= '9'
  }

  /** The whitespace PHP allows in front of a numeric string. */
  predicate IsNumericSpace(c: char)
  {
    c == ' ' || c == '\t' || c == '\n' || c == '\r' || c == '\U{B}' || c == '\U{C}'
  }

  function SkipNumericSpace(s: string): string
  {
    if |s| > 0 && IsNumericSpace(s[0]) then SkipNumericSpace(s[1..]) else s
  }

  /** Skipping leading whitespace leaves a suffix that does not start with whitespace. */
  lemma {:induction false} SkipNumericSpaceSuffix(s: string)
    ensures |SkipNumericSpace(s)| <= |s| && SkipNumericSpace(s) == s[|s| - |SkipNumericSpace(s)|..]
    ensures |SkipNumericSpace(s)| == 0 || !IsNumericSpace(SkipNumericSpace(s)[0])
  {
    if |s| > 0 && IsNumericSpace(s[0]) {
      SkipNumericSpaceSuffix(s[1..]);
    }
  }

  /** Length of the run of decimal digits at the front of `s`. */
  function DigitRun(s: string): (n: nat)
    ensures n <= |s|
    ensures forall i :: 0 <= i < n ==> IsDigit(s[i])
    ensures n == |s| || !IsDigit(s[n])
  {
    if |s| > 0 && IsDigit(s[0]) then 1 + DigitRun(s[1..]) else 0
  }

  function DigitValue(c: char): nat
    requires IsDigit(c)
  {
    (c as int) - ('0' as int)
  }

  /** The number a string of decimal digits denotes. */
  function DigitsValue(s: string): nat
    requires forall i :: 0 <= i < |s| ==> IsDigit(s[i])
  {
    if |s| == 0 then 0 else DigitsValue(s[..|s| - 1]) * 10 + DigitValue(s[|s| - 1])
  }

  /** The `i`-th fraction digit, zero once the digit run has ended. */
  function FractionDigit(s: string, i: nat): nat
  {
    if i < DigitRun(s) then DigitValue(s[i]) else 0
  }

  /** The first three digits of a fraction, as thousandths; further digits are dropped. */
  function Thousandths(s: string): (t: nat)
    ensures t < 1000
  {
    100 * FractionDigit(s, 0) + 10 * FractionDigit(s, 1) + FractionDigit(s, 2)
  }

  /** An unsigned decimal `digits[.digits]` prefix, in thousandths; 0 when there are no digits. */
  function Magnitude(s: string): nat
  {
    var n := DigitRun(s);
    DigitsValue(s[..n]) * 1000 + (if n < |s| && s[n] == '.' then Thousandths(s[n + 1..]) else 0)
  }

  /**
   * PHP's `(float)` cast of the `q` text, in thousandths: leading whitespace,
   * an optional sign and the longest numeric prefix count, anything else is
   * ignored, and a text with no digits at all is 0.
   */
  function ParseQuality(s: string): int
  {
    var t := SkipNumericSpace(s);
    if |t| > 0 && t[0] == '-' then 0 - Magnitude(t[1..])
    else if |t| > 0 && t[0] == '+' then Magnitude(t[1..])
    else Magnitude(t)
  }

  /** A quality text without any digit casts to 0. */
  lemma ParseQualityNoDigits(s: string)
    requires forall i :: 0 <= i < |s| ==> !IsDigit(s[i])
    ensures ParseQuality(s) == 0
  {
    var t := SkipNumericSpace(s);
    SkipNumericSpaceSuffix(s);
    assert forall i :: 0 <= i < |t| ==> t[i] == s[|s| - |t| + i];
    if |t| > 0 && (t[0] == '-' || t[0] == '+') {
      assert DigitRun(t[1..]) == 0 by {
        assert |t[1..]| == 0 || t[1..][0] == t[1];
      }
    } else {
      assert DigitRun(t) == 0;
    }
  }

  /** Decimal digits of `n`, most significant first, without leading zeros. */
  function Decimal(n: nat): (s: string)
    ensures |s| > 0
    ensures forall i :: 0 <= i < |s| ==> IsDigit(s[i])
    ensures DigitsValue(s) == n
  {
    var d := ['0' + (n % 10) as char];
    if n < 10 then d
    else
      var s := Decimal(n / 10) + d;
      assert s[..|s| - 1] == Decimal(n / 10);
      s
  }

  /** Three digits for a count of thousandths. */
  function ThreeDigits(f: nat): (s: string)
    requires f < 1000
    ensures |s| == 3
    ensures forall i :: 0 <= i < 3 ==> IsDigit(s[i])
  {
    ['0' + (f / 100) as char, '0' + (f / 10 % 10) as char, '0' + (f % 10) as char]
  }

  /** A non-negative quality written out as a qvalue, `digits.ddd`. */
  function FormatUnsigned(m: nat): string
  {
    Decimal(m / 1000) + "." + ThreeDigits(m % 1000)
  }

  /** A quality written out as a qvalue, `[-]digits.ddd`. */
  function FormatQuality(q: int): string
  {
    if q < 0 then "-" + FormatUnsigned(-q) else FormatUnsigned(q)
  }

  /** Every quality survives being written out and parsed back. */
  lemma FormatParseQuality(q: int)
    ensures ParseQuality(FormatQuality(q)) == q
  {
    if q < 0 {
      FormatParseNegative(q);
    } else {
      MagnitudeOfFormatted(q);
      assert IsDigit(FormatUnsigned(q)[0]);
    }
  }

  lemma FormatParseNegative(q: int)
    requires q < 0
    ensures ParseQuality("-" + FormatUnsigned(-q)) == q
  {
    var body := FormatUnsigned(-q);
    var s := "-" + body;
    MagnitudeOfFormatted(-q);
    assert SkipNumericSpace(s) == s;
    assert s[1..] == body;
  }

  lemma MagnitudeOfFormatted(m: nat)
    ensures Magnitude(FormatUnsigned(m)) == m
    ensures SkipNumericSpace(FormatUnsigned(m)) == FormatUnsigned(m)
  {
    FormattedMagnitude(m);
    ThousandthsOfThreeDigits(m % 1000);
    SkipOfFormatted(m);
  }

  lemma FormattedMagnitude(m: nat)
    ensures Magnitude(FormatUnsigned(m)) == DigitsValue(Decimal(m / 1000)) * 1000 + Thousandths(ThreeDigits(m % 1000))
  {
    var d := Decimal(m / 1000);
    var f := ThreeDigits(m % 1000);
    var s := FormatUnsigned(m);
    PointSplit(s, d, f);
    DigitRunOfDigits(d, "." + f);
    MagnitudeOfParts(s, d, f);
  }

  lemma SkipOfFormatted(m: nat)
    ensures SkipNumericSpace(FormatUnsigned(m)) == FormatUnsigned(m)
  {
    var d := Decimal(m / 1000);
    var s := FormatUnsigned(m);
    assert s[0] == d[0];
    assert IsDigit(s[0]);
  }

  /** Where the point sits in `d.f`. */
  lemma PointSplit(s: string, d: string, f: string)
    requires s == d + "." + f
    ensures s == d + ("." + f)
    ensures |d| < |s| && s[..|d|] == d && s[|d|] == '.' && s[|d| + 1..] == f
  {
  }

  /** Digits, a point and a fraction: the whole part in thousandths plus the fraction's first three digits. */
  lemma MagnitudeOfParts(s: string, d: string, f: string)
    requires forall i :: 0 <= i < |d| ==> IsDigit(d[i])
    requires DigitRun(s) == |d| < |s|
    requires s[..|d|] == d && s[|d|] == '.' && s[|d| + 1..] == f
    ensures Magnitude(s) == DigitsValue(d) * 1000 + Thousandths(f)
  {
  }

  lemma ThousandthsOfThreeDigits(n: nat)
    requires n < 1000
    ensures Thousandths(ThreeDigits(n)) == n
  {
    var f := ThreeDigits(n);
    assert DigitRun(f) == 3 by {
      assert f[1..][1..][1..] == [];
    }
    assert FractionDigit(f, 0) == n / 100;
    assert FractionDigit(f, 1) == n / 10 % 10;
    assert FractionDigit(f, 2) == n % 10;
    DecimalDigits(n);
  }

  lemma DecimalDigits(n: nat)
    requires n < 1000
    ensures 100 * (n / 100) + 10 * (n / 10 % 10) + n % 10 == n
  {
  }

  lemma {:induction false} DigitRunOfDigits(d: string, rest: string)
    requires forall i :: 0 <= i < |d| ==> IsDigit(d[i])
    requires |rest| == 0 || !IsDigit(rest[0])
    ensures DigitRun(d + rest) == |d|
  {
    if |d| > 0 {
      assert (d + rest)[1..] == d[1..] + rest;
      DigitRunOfDigits(d[1..], rest);
    } else {
      assert d + rest == rest;
    }
  }

  // ---------------------------------------------------------------------------
  // One comma-separated piece, and the whole header
  // ---------------------------------------------------------------------------

  /** The text of a piece before its first `;`. */
  function Head(piece: string): string
  {
    Explode(piece, ';')[0]
  }

  /** The `;`-separated parameter segments of a piece, in order. */
  function Segments(piece: string): seq<string>
  {
    Explode(piece, ';')[1..]
  }

  /** PHP `isset($params[n])`: present and not `null`. */
  predicate IsSet(params: map<string, ParamValue>, n: string)
  {
    n in params && params[n].Str?
  }

  /**
   * The body of the outer loop of `parseAcceptable`: the token is the trimmed
   * text before the first `;`; a set parameter `q` becomes the quality and
   * leaves the map, otherwise the quality is 1.0.
   */
  function ParseEntry(piece: string): Value
  {
    var params := ParseParams(Segments(piece));
    if IsSet(params, "q") then
      Value(Trim(Head(piece)), ParseQuality(params["q"].text), params - {"q"})
    else
      Value(Trim(Head(piece)), DefaultQuality, params)
  }

  /**
   * Whatever the segments, `q` never stays among the parameters, and all
   * the other parameters stay; the quality is the cast `q` value when one
   * is set and 1.0 otherwise.
   */
  lemma ParseEntrySpec(piece: string)
    ensures ParseEntry(piece).token == Trim(Head(piece))
    ensures "q" !in ParseEntry(piece).params
    ensures ParseEntry(piece).params == ParseParams(Segments(piece)) - {"q"}
    ensures !IsSet(ParseParams(Segments(piece)), "q") ==> ParseEntry(piece).quality == DefaultQuality
    ensures IsSet(ParseParams(Segments(piece)), "q") ==>
              ParseEntry(piece).quality == ParseQuality(ParseParams(Segments(piece))["q"].text)
  {
    var params := ParseParams(Segments(piece));
    QualityIsSetWhenPresent(Segments(piece));
    var e := ParseEntry(piece);
    if IsSet(params, "q") {
      assert e == Value(Trim(Head(piece)), ParseQuality(params["q"].text), params - {"q"});
    } else {
      assert "q" !in params;
      assert e == Value(Trim(Head(piece)), DefaultQuality, params);
      assert params - {"q"} == params;
    }
  }

  /**
   * In terms of the segments: the quality is 1.0 when no segment is named
   * exactly `q`, and otherwise the value of the last segment named `q`;
   * every other name keeps the value of its last segment.
   */
  lemma ParseEntryBySegments(piece: string)
    ensures var segs := Segments(piece);
            && ((forall i :: 0 <= i < |segs| ==> SegmentName(segs[i]) != "q") ==>
                  ParseEntry(piece).quality == DefaultQuality)
            && (forall i :: 0 <= i < |segs| && LastNamed(segs, i) && SegmentName(segs[i]) == "q" ==>
                  ParseEntry(piece).quality == ParseQuality(SegmentValue(segs[i]).text))
            && (forall i :: 0 <= i < |segs| && LastNamed(segs, i) && SegmentName(segs[i]) != "q" ==>
                  && SegmentName(segs[i]) in ParseEntry(piece).params
                  && ParseEntry(piece).params[SegmentName(segs[i])] == SegmentValue(segs[i]))
  {
    var segs := Segments(piece);
    var params := ParseParams(segs);
    var v := ParseEntry(piece);
    ParseParamsSpec(segs);
    ParseEntrySpec(piece);
    if forall i :: 0 <= i < |segs| ==> SegmentName(segs[i]) != "q" {
      assert "q" !in params;
    }
    forall i | 0 <= i < |segs| && LastNamed(segs, i) && SegmentName(segs[i]) == "q"
      ensures v.quality == ParseQuality(SegmentValue(segs[i]).text)
    {
      assert params["q"] == SegmentValue(segs[i]);
    }
    forall i | 0 <= i < |segs| && LastNamed(segs, i) && SegmentName(segs[i]) != "q"
      ensures SegmentName(segs[i]) in v.params && v.params[SegmentName(segs[i])] == SegmentValue(segs[i])
    {
      var n := SegmentName(segs[i]);
      assert n in params && params[n] == SegmentValue(segs[i]);
      MapMinusKeeps(params, "q", n);
    }
  }

  lemma MapMinusKeeps(m: map<string, ParamValue>, gone: string, n: string)
    requires n in m && n != gone
    ensures n in m - {gone} && (m - {gone})[n] == m[n]
  {
  }

  /** The key `q` is never stored with `null`, so "present" and "set" agree for it. */
  lemma QualityIsSetWhenPresent(segs: seq<string>)
    ensures "q" in ParseParams(segs) ==> IsSet(ParseParams(segs), "q")
  {
    var pairs := SegmentPairs(segs);
    if "q" in ParseParams(segs) {
      StoreFrom(pairs, "q");
    }
  }

  /**
   * `parseAcceptable`: one entry per comma-separated piece, in order, so
   * there is always one more entry than there are commas.
   */
  function Parse(header: string): (entries: seq<Value>)
    ensures |entries| == Count(header, ',') + 1
  {
    var pieces := Explode(header, ',');
    seq(|pieces|, i requires 0 <= i < |pieces| => ParseEntry(pieces[i]))
  }

  /** Parsing a comma-joined list of pieces parses each piece on its own. */
  lemma ParseImplode(pieces: seq<string>)
    requires |pieces| > 0
    requires forall i :: 0 <= i < |pieces| ==> ',' !in pieces[i]
    ensures |Parse(Implode(pieces, ','))| == |pieces|
    ensures forall i :: 0 <= i < |pieces| ==> Parse(Implode(pieces, ','))[i] == ParseEntry(pieces[i])
  {
    ExplodeImplode(pieces, ',');
  }

  /** A token with nothing but an explicit quality: formatting it as `token;q=…` and parsing it gives it back. */
  lemma ParseEntryWithQuality(token: string, q: int)
    requires ';' !in token
    requires |token| == 0 || (!IsTrimSpace(token[0]) && !IsTrimSpace(token[|token| - 1]))
    ensures ParseEntry(token + ";q=" + FormatQuality(q)) == Value(token, q, map[])
  {
    var f := FormatQuality(q);
    FormatHasNoSeparator(q);
    SplitQualityPiece(token, f);
    TrimmedIsFixed(token);
    QualitySegment(q);
    FormatParseQuality(q);
    EntryFromParts(token + ";q=" + f, token, f, q);
  }

  lemma EntryFromParts(piece: string, token: string, f: string, q: int)
    requires Trim(Head(piece)) == token
    requires ParseParams(Segments(piece)) == map["q" := Str(f)]
    requires ParseQuality(f) == q
    ensures ParseEntry(piece) == Value(token, q, map[])
  {
    var params := ParseParams(Segments(piece));
    assert IsSet(params, "q");
    OnlyQuality(f);
  }

  lemma OnlyQuality(f: string)
    ensures map["q" := Str(f)] - {"q"} == map[]
  {
  }

  lemma TrimmedIsFixed(t: string)
    requires |t| == 0 || (!IsTrimSpace(t[0]) && !IsTrimSpace(t[|t| - 1]))
    ensures Trim(t) == t
  {
    TrimPadded("", t, "");
    assert "" + t + "" == t;
  }

  lemma SplitQualityPiece(token: string, f: string)
    requires ';' !in token && ';' !in f
    ensures Head(token + ";q=" + f) == token
    ensures Segments(token + ";q=" + f) == ["q=" + f]
  {
    var seg := "q=" + f;
    assert ';' !in seg by {
      forall i | 0 <= i < |seg| ensures seg[i] != ';' {
        if i >= 2 {
          assert seg[i] == f[i - 2];
        }
      }
    }
    assert token + ";q=" + f == Implode([token, seg], ';');
    ExplodeImplode([token, seg], ';');
  }

  /** The segment `q=<formatted quality>` stores exactly that text under `q`. */
  lemma QualitySegment(q: int)
    ensures ParseParams(["q=" + FormatQuality(q)]) == map["q" := Str(FormatQuality(q))]
  {
    var f := FormatQuality(q);
    MatchQualitySegment(q);
    assert SegmentPairs(["q=" + f]) == [("q", Str(f))];
    assert Store([("q", Str(f))]) == map["q" := Str(f)] by {
      assert [("q", Str(f))][..0] == [];
    }
  }

  lemma MatchQualitySegment(q: int)
    ensures MatchParam("q=" + FormatQuality(q)) == Some(ParamMatch("q", FormatQuality(q)))
  {
    var f := FormatQuality(q);
    var seg := "q=" + f;
    FormatHasNoSeparator(q);
    assert '\n' !in seg by {
      forall i | 0 <= i < |seg| ensures seg[i] != '\n' {
        if i >= 2 {
          assert seg[i] == f[i - 2];
        }
      }
    }
    assert Body(seg) == seg;
    assert FindEquals(seg, 1) == 1;
    assert seg[..1] == "q" && seg[2..] == f;
    assert Unquote(f) == f;
  }

  /** A formatted quality starts with `-` or a digit and holds no `;`, `,`, `=` or line feed. */
  lemma FormatHasNoSeparator(q: int)
    ensures ';' !in FormatQuality(q)
    ensures |FormatQuality(q)| > 0
    ensures FormatQuality(q)[0] == '-' || IsDigit(FormatQuality(q)[0])
    ensures forall i :: 0 <= i < |FormatQuality(q)| ==>
              var c := FormatQuality(q)[i]; c == '-' || c == '.' || IsDigit(c)
  {
  }

  // ---------------------------------------------------------------------------
  // Whitespace before a parameter name
  // ---------------------------------------------------------------------------

  /**
   * The name of a parameter is not trimmed, so `q` written after `; ` is
   * stored under `" q"`: it is an ordinary parameter and the quality stays 1.0.
   */
  lemma SpacedQualityIgnored(token: string, v: string)
    requires ';' !in token && ';' !in v && '\n' !in v
    ensures ParseEntry(token + "; q=" + v) == Value(Trim(token), DefaultQuality, map[" q" := Str(Unquote(v))])
  {
    var piece := token + "; q=" + v;
    SplitSpacedPiece(token, v);
    SpacedParams(v);
    var params := ParseParams(Segments(piece));
    assert !IsSet(params, "q");
  }

  /**
   * `text/html; q=0.5`, or any other token followed by `; q=0.5`, keeps
   * quality 1.0 and a parameter named `" q"`.
   */
  lemma SpacedQualityExample(token: string)
    requires ';' !in token
    requires |token| == 0 || (!IsTrimSpace(token[0]) && !IsTrimSpace(token[|token| - 1]))
    ensures ParseEntry(token + "; q=0.5") == Value(token, DefaultQuality, map[" q" := Str("0.5")])
  {
    var v := "0.5";
    assert token + "; q=0.5" == token + "; q=" + v;
    SpacedQualityIgnored(token, v);
    assert Unquote(v) == v;
    TrimmedIsFixed(token);
  }

  lemma SplitSpacedPiece(token: string, v: string)
    requires ';' !in token && ';' !in v
    ensures Head(token + "; q=" + v) == token
    ensures Segments(token + "; q=" + v) == [" q=" + v]
  {
    var seg := " q=" + v;
    assert ';' !in seg by {
      forall i | 0 <= i < |seg| ensures seg[i] != ';' {
        if i >= 3 {
          assert seg[i] == v[i - 3];
        }
      }
    }
    assert token + "; q=" + v == Implode([token, seg], ';');
    ExplodeImplode([token, seg], ';');
  }

  lemma SpacedParams(v: string)
    requires '\n' !in v
    ensures ParseParams([" q=" + v]) == map[" q" := Str(Unquote(v))]
  {
    var seg := " q=" + v;
    assert '\n' !in seg by {
      forall i | 0 <= i < |seg| ensures seg[i] != '\n' {
        if i >= 3 {
          assert seg[i] == v[i - 3];
        }
      }
    }
    assert Body(seg) == seg;
    assert FindEquals(seg, 1) == 2;
    assert seg[..2] == " q" && seg[3..] == v;
    assert MatchParam(seg) == Some(ParamMatch(" q", Unquote(v)));
    assert SegmentPairs([seg]) == [(" q", Str(Unquote(v)))];
    assert Store([(" q", Str(Unquote(v)))]) == map[" q" := Str(Unquote(v))] by {
      assert [(" q", Str(Unquote(v)))][..0] == [];
    }
  }
}
