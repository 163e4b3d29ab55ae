/**
 * The acceptable set itself: `add`, `set` and `convertAvailable`
 * (src/Request/Accept/AbstractValues.php, lines 34-61 and 153-161). Each call
 * of `add` parses the new text, appends it to the current entries, sorts the
 * whole list by quality and drops duplicate tokens.
 */
module ValueSet {
  import opened Wrappers
  import opened Text
  import opened Values
  import opened Parser
  import opened Sorting
  import opened Dedupe

  /**
   * What `add` is given: a raw header string, or a copy of `$_SERVER` in
   * which the header is looked up under the set's server key.
   */
  datatype Source = Header(raw: string) | Server(vars: map<string, string>)

  /** Lines 56-58: sort the current entries followed by the new ones, then remove duplicate tokens. */
  function Merge(key: int -> int, acceptable: seq<Value>, incoming: seq<Value>): seq<Value>
  {
    RemoveDuplicates(QualitySort(key, acceptable + incoming))
  }

  /**
   * Every token of either side survives exactly once, as one of the merged
   * entries, namely one whose key is the lowest among that token's
   * occurrences.
   */
  lemma MergeSpec(key: int -> int, acceptable: seq<Value>, incoming: seq<Value>)
    ensures var r := Merge(key, acceptable, incoming);
            && DistinctTokens(r)
            && Tokens(r) == Tokens(acceptable) + Tokens(incoming)
            && (forall i :: 0 <= i < |r| ==> r[i] in acceptable + incoming)
            && (forall i, j :: 0 <= i < |r| && 0 <= j < |acceptable + incoming|
                               && (acceptable + incoming)[j].token == r[i].token ==>
                  key(r[i].quality) <= key((acceptable + incoming)[j].quality))
  {
    var all := acceptable + incoming;
    var sorted := QualitySort(key, all);
    var r := RemoveDuplicates(sorted);
    QualitySortSpec(key, all);
    RemoveDuplicatesSpec(sorted);
    TokensConcat(acceptable, incoming);
    TokensOfPermutation(sorted, all);
    MergeMembers(all, sorted, r);
    LowestKeySurvives(key, all, sorted, r);
  }

  lemma TokensConcat(a: seq<Value>, b: seq<Value>)
    ensures Tokens(a + b) == Tokens(a) + Tokens(b)
  {
    var ab := a + b;
    forall t | t in Tokens(ab) ensures t in Tokens(a) + Tokens(b) {
      var i :| 0 <= i < |ab| && ab[i].token == t;
      if i < |a| {
        assert ab[i] == a[i];
      } else {
        assert ab[i] == b[i - |a|];
      }
    }
    forall t | t in Tokens(a) + Tokens(b) ensures t in Tokens(ab) {
      if t in Tokens(a) {
        var i :| 0 <= i < |a| && a[i].token == t;
        assert ab[i] == a[i];
      } else {
        var i :| 0 <= i < |b| && b[i].token == t;
        assert ab[|a| + i] == b[i];
      }
    }
  }

  lemma TokensOfPermutation(a: seq<Value>, b: seq<Value>)
    requires multiset(a) == multiset(b)
    ensures Tokens(a) == Tokens(b)
  {
    forall t | t in Tokens(a) ensures t in Tokens(b) {
      var i :| 0 <= i < |a| && a[i].token == t;
      assert a[i] in multiset(b);
      var j :| 0 <= j < |b| && b[j] == a[i];
    }
    forall t | t in Tokens(b) ensures t in Tokens(a) {
      var i :| 0 <= i < |b| && b[i].token == t;
      assert b[i] in multiset(a);
      var j :| 0 <= j < |a| && a[j] == b[i];
    }
  }

  /** Every entry that carries its token's last occurrence in a permutation of `all` comes from `all`. */
  lemma MergeMembers(all: seq<Value>, sorted: seq<Value>, r: seq<Value>)
    requires multiset(sorted) == multiset(all)
    requires forall i :: 0 <= i < |r| ==> CarriesLast(sorted, r[i])
    ensures forall i :: 0 <= i < |r| ==> r[i] in all
  {
    forall i | 0 <= i < |r| ensures r[i] in all {
      assert CarriesLast(sorted, r[i]);
      assert sorted[LastIndex(sorted, r[i].token)] in multiset(sorted);
    }
  }

  /** After a descending sort, the last occurrence of a token has its lowest key. */
  lemma LowestKeySurvives(key: int -> int, all: seq<Value>, sorted: seq<Value>, r: seq<Value>)
    requires multiset(sorted) == multiset(all)
    requires SortedByKey(key, sorted)
    requires forall i :: 0 <= i < |r| ==> CarriesLast(sorted, r[i])
    ensures forall i, j :: 0 <= i < |r| && 0 <= j < |all| && all[j].token == r[i].token ==>
              key(r[i].quality) <= key(all[j].quality)
  {
    forall i, j | 0 <= i < |r| && 0 <= j < |all| && all[j].token == r[i].token
      ensures key(r[i].quality) <= key(all[j].quality)
    {
      assert CarriesLast(sorted, r[i]);
      var last := LastIndex(sorted, r[i].token);
      assert all[j] in multiset(sorted);
      var k :| 0 <= k < |sorted| && sorted[k] == all[j];
      assert k <= last;
    }
  }

  /** The header text `add` works on: the raw string, or the server variable when it is set. */
  function HeaderText(serverKey: string, source: Source): Option<string>
  {
    match source
    case Server(vars) => if serverKey in vars then Some(vars[serverKey]) else None
    case Header(raw) => Some(raw)
  }

  /** `add`: reset when the server variables lack the header, otherwise parse and merge. */
  function Add(key: int -> int, serverKey: string, acceptable: seq<Value>, source: Source): seq<Value>
  {
    match HeaderText(serverKey, source)
    case None => []
    case Some(text) => Merge(key, acceptable, Parse(text))
  }

  /**
   * With a copy of the server variables that lacks the key, `add` empties
   * the set; otherwise no token occurs twice afterwards, and the tokens are
   * the old ones together with the parsed ones.
   */
  lemma AddSpec(key: int -> int, serverKey: string, acceptable: seq<Value>, source: Source)
    ensures HeaderText(serverKey, source).None? ==> Add(key, serverKey, acceptable, source) == []
    ensures HeaderText(serverKey, source).Some? ==>
              && DistinctTokens(Add(key, serverKey, acceptable, source))
              && Tokens(Add(key, serverKey, acceptable, source))
                 == Tokens(acceptable) + Tokens(Parse(HeaderText(serverKey, source).value))
  {
    if HeaderText(serverKey, source).Some? {
      MergeSpec(key, acceptable, Parse(HeaderText(serverKey, source).value));
    }
  }

  /** `set`: empty the set, then `add`. */
  function Set(key: int -> int, serverKey: string, source: Source): seq<Value>
  {
    Add(key, serverKey, [], source)
  }

  /**
   * `convertAvailable`: a copy of the set, emptied, to which every available
   * string is added in turn.
   */
  function ConvertAvailable(key: int -> int, available: seq<string>): seq<Value>
  {
    if |available| == 0 then []
    else Merge(key, ConvertAvailable(key, available[..|available| - 1]), Parse(available[|available| - 1]))
  }

  /** A non-empty list always yields a non-empty set. */
  lemma ConvertAvailableNonEmpty(key: int -> int, available: seq<string>)
    requires |available| > 0
    ensures |ConvertAvailable(key, available)| > 0
  {
    ConvertStep(key, available);
    MergeNonEmpty(key, ConvertAvailable(key, available[..|available| - 1]), Parse(available[|available| - 1]));
  }

  /** Merging at least one entry leaves at least one. */
  lemma MergeNonEmpty(key: int -> int, acceptable: seq<Value>, incoming: seq<Value>)
    requires |incoming| > 0
    ensures |Merge(key, acceptable, incoming)| > 0
  {
    MergeSpec(key, acceptable, incoming);
    assert incoming[0].token in Tokens(incoming);
  }

  /** The tokens of all available strings, each parsed on its own. */
  function ParsedTokens(available: seq<string>): set<string>
  {
    if |available| == 0 then {}
    else ParsedTokens(available[..|available| - 1]) + Tokens(Parse(available[|available| - 1]))
  }

  /** The converted set holds every available token exactly once. */
  lemma {:induction false} ConvertAvailableSpec(key: int -> int, available: seq<string>)
    ensures DistinctTokens(ConvertAvailable(key, available))
    ensures Tokens(ConvertAvailable(key, available)) == ParsedTokens(available)
  {
    if |available| > 0 {
      var init := available[..|available| - 1];
      ConvertAvailableSpec(key, init);
      ConvertStep(key, available);
      MergeSpec(key, ConvertAvailable(key, init), Parse(available[|available| - 1]));
    }
  }

  // ---------------------------------------------------------------------------
  // Available lists of plain tokens
  // ---------------------------------------------------------------------------

  /** A string that `parseAcceptable` does not split: no `,` and no `;`. */
  predicate Plain(s: string)
  {
    ',' !in s && ';' !in s
  }

  /** The entry a plain string parses to: its trimmed text at quality 1.0, no parameters. */
  function PlainValue(s: string): Value
  {
    Value(Trim(s), DefaultQuality, map[])
  }

  /** A plain string parses to its trimmed text at quality 1.0 with no parameters. */
  lemma ParsePlain(s: string)
    requires Plain(s)
    ensures Parse(s) == [PlainValue(s)]
  {
    ExplodeNoSeparator(s, ',');
    ExplodeNoSeparator(s, ';');
    assert Segments(s) == [];
    assert ParseParams([]) == map[] by {
      StoreKeys([]);
    }
  }

  /** The entries of `vs` whose token has not occurred before, in order. */
  function FirstOccurrences(vs: seq<Value>): (r: seq<Value>)
    ensures DistinctTokens(r)
    ensures Tokens(r) == Tokens(vs)
    ensures forall i :: 0 <= i < |r| ==> r[i] in vs
  {
    if |vs| == 0 then []
    else
      var u := FirstOccurrences(vs[..|vs| - 1]);
      var v := vs[|vs| - 1];
      assert vs == vs[..|vs| - 1] + [v];
      TokensAppend(vs[..|vs| - 1], v);
      if v.token in Tokens(u) then u
      else
        TokensAppend(u, v);
        u + [v]
  }

  /**
   * For plain available strings the converted set is the list itself,
   * trimmed, at quality 1.0, with later repetitions of a token dropped:
   * the server's preference order survives.
   */
  lemma {:induction false} ConvertPlain(key: int -> int, available: seq<string>)
    requires forall i :: 0 <= i < |available| ==> Plain(available[i])
    ensures ConvertAvailable(key, available) == FirstOccurrences(PlainValues(available))
  {
    if |available| > 0 {
      var init := available[..|available| - 1];
      var a := available[|available| - 1];
      PlainPrefix(available, init);
      ConvertPlain(key, init);
      var u := FirstOccurrences(PlainValues(init));
      var v := PlainValue(a);
      ConvertPlainStep(key, available, init, u);
      FirstOccurrencesPlainStep(available, init, u);
    }
  }

  /** One more plain string: its entry is appended unless its token is already there. */
  lemma ConvertPlainStep(key: int -> int, available: seq<string>, init: seq<string>, u: seq<Value>)
    requires |available| > 0 && init == available[..|available| - 1]
    requires Plain(available[|available| - 1])
    requires u == FirstOccurrences(PlainValues(init))
    requires ConvertAvailable(key, init) == u
    ensures var v := PlainValue(available[|available| - 1]);
            ConvertAvailable(key, available) == if v.token in Tokens(u) then u else u + [v]
  {
    ConvertPlainMerge(key, available, init, u);
    MergeFirstOccurrences(key, init, u, PlainValue(available[|available| - 1]));
  }

  lemma MergeFirstOccurrences(key: int -> int, init: seq<string>, u: seq<Value>, v: Value)
    requires u == FirstOccurrences(PlainValues(init))
    requires v.quality == DefaultQuality && v.params == map[]
    ensures Merge(key, u, [v]) == if v.token in Tokens(u) then u else u + [v]
  {
    AllPlain(u, PlainValues(init));
    MergePlain(key, u, v);
  }

  lemma ConvertPlainMerge(key: int -> int, available: seq<string>, init: seq<string>, u: seq<Value>)
    requires |available| > 0 && init == available[..|available| - 1]
    requires Plain(available[|available| - 1])
    requires ConvertAvailable(key, init) == u
    ensures ConvertAvailable(key, available) == Merge(key, u, [PlainValue(available[|available| - 1])])
  {
    ConvertStep(key, available);
    ParsePlain(available[|available| - 1]);
  }

  lemma FirstOccurrencesPlainStep(available: seq<string>, init: seq<string>, u: seq<Value>)
    requires |available| > 0 && init == available[..|available| - 1]
    requires u == FirstOccurrences(PlainValues(init))
    ensures var v := PlainValue(available[|available| - 1]);
            FirstOccurrences(PlainValues(available)) == if v.token in Tokens(u) then u else u + [v]
  {
    PlainValuesSnoc(available);
    FirstOccurrencesSnoc(PlainValues(available));
  }

  lemma PlainPrefix(available: seq<string>, init: seq<string>)
    requires |available| > 0 && init == available[..|available| - 1]
    requires forall i :: 0 <= i < |available| ==> Plain(available[i])
    ensures forall i :: 0 <= i < |init| ==> Plain(init[i])
  {
    forall i | 0 <= i < |init| ensures Plain(init[i]) {
      assert init[i] == available[i];
    }
  }

  lemma ConvertStep(key: int -> int, available: seq<string>)
    requires |available| > 0
    ensures ConvertAvailable(key, available)
         == Merge(key, ConvertAvailable(key, available[..|available| - 1]), Parse(available[|available| - 1]))
  {
  }

  lemma FirstOccurrencesSnoc(vs: seq<Value>)
    requires |vs| > 0
    ensures var u := FirstOccurrences(vs[..|vs| - 1]);
            FirstOccurrences(vs) == if vs[|vs| - 1].token in Tokens(u) then u else u + [vs[|vs| - 1]]
  {
  }

  lemma PlainValuesSnoc(available: seq<string>)
    requires |available| > 0
    ensures PlainValues(available)[..|available| - 1] == PlainValues(available[..|available| - 1])
    ensures PlainValues(available)[|available| - 1] == PlainValue(available[|available| - 1])
  {
  }

  /** The first entry always survives, in front. */
  lemma {:induction false} FirstOccurrencesHead(vs: seq<Value>)
    requires |vs| > 0
    ensures |FirstOccurrences(vs)| > 0 && FirstOccurrences(vs)[0] == vs[0]
  {
    if |vs| > 1 {
      var init := vs[..|vs| - 1];
      FirstOccurrencesHead(init);
      FirstOccurrencesSnoc(vs);
    } else {
      FirstOccurrencesSnoc(vs);
      assert FirstOccurrences(vs[..0]) == [];
    }
  }

  /** The plain entries of a list of available strings. */
  function PlainValues(available: seq<string>): (vs: seq<Value>)
    ensures |vs| == |available|
    ensures forall i :: 0 <= i < |vs| ==> vs[i] == PlainValue(available[i])
  {
    seq(|available|, i requires 0 <= i < |available| => PlainValue(available[i]))
  }

  lemma AllPlain(u: seq<Value>, vs: seq<Value>)
    requires forall i :: 0 <= i < |u| ==> u[i] in vs
    requires forall i :: 0 <= i < |vs| ==> vs[i].quality == DefaultQuality && vs[i].params == map[]
    ensures forall i :: 0 <= i < |u| ==> u[i].quality == DefaultQuality && u[i].params == map[]
  {
  }

  /** Merging one more plain entry into plain, distinct entries appends it unless its token is present. */
  lemma MergePlain(key: int -> int, u: seq<Value>, v: Value)
    requires DistinctTokens(u)
    requires forall i :: 0 <= i < |u| ==> u[i].quality == DefaultQuality && u[i].params == map[]
    requires v.quality == DefaultQuality && v.params == map[]
    ensures Merge(key, u, [v]) == if v.token in Tokens(u) then u else u + [v]
  {
    var all := u + [v];
    PlainOneBucket(key, u, v);
    RemoveDuplicatesSnoc(u, v);
    RemoveDuplicatesOfDistinct(u);
    PutPlain(u, v);
  }

  lemma PlainOneBucket(key: int -> int, u: seq<Value>, v: Value)
    requires forall i :: 0 <= i < |u| ==> u[i].quality == DefaultQuality
    requires v.quality == DefaultQuality
    ensures QualitySort(key, u + [v]) == u + [v]
  {
    var all := u + [v];
    assert forall i :: 0 <= i < |all| ==> key(all[i].quality) == key(DefaultQuality) by {
      forall i | 0 <= i < |all| ensures key(all[i].quality) == key(DefaultQuality) {
        if i < |u| {
          assert all[i] == u[i];
        }
      }
    }
    SortOneBucket(key, all, key(DefaultQuality));
  }

  /** Putting a plain entry over plain entries changes nothing when its token is present. */
  lemma PutPlain(u: seq<Value>, v: Value)
    requires forall i :: 0 <= i < |u| ==> u[i].quality == DefaultQuality && u[i].params == map[]
    requires v.quality == DefaultQuality && v.params == map[]
    ensures Put(u, v) == if v.token in Tokens(u) then u else u + [v]
  {
    TokenIn(u, v.token);
    var i := FirstIndex(u, v.token);
    if i < |u| {
      assert u[i] == v;
      assert u[i := v] == u;
    }
  }

  // ---------------------------------------------------------------------------
  // Consequences for callers
  // ---------------------------------------------------------------------------

  /**
   * An empty header string is not an absent header: it explodes into one
   * empty piece, so the set holds a single entry with the empty token.
   */
  lemma SetEmptyHeader(key: int -> int, serverKey: string)
    ensures Set(key, serverKey, Header("")) == [Value("", DefaultQuality, map[])]
  {
    ParsePlain("");
    assert Trim("") == "";
    MergePlain(key, [], PlainValue(""));
  }

  /**
   * Adding the same header twice can reorder the set, and the set `add`
   * leaves behind need not be ordered by quality: the header
   * `x, y, x;q=0.5` gives `x;q=0.5, y` once, and `y, x;q=0.5` when added
   * again. This holds for both bucket keys.
   */
  lemma AddTwiceCanReorder(key: int -> int, x: string, y: string)
    requires key(DefaultQuality) > key(500)
    requires x != y
    ensures var h := [Value(x, DefaultQuality, map[]), Value(y, DefaultQuality, map[]), Value(x, 500, map[])];
            var once := Merge(key, [], h);
            once == [Value(x, 500, map[]), Value(y, DefaultQuality, map[])]
            && !SortedByKey(key, once)
            && |Merge(key, once, h)| > 0 && Merge(key, once, h)[0].token == y
  {
    var x10 := Value(x, DefaultQuality, map[]);
    var y10 := Value(y, DefaultQuality, map[]);
    var x5 := Value(x, 500, map[]);
    var h := [x10, y10, x5];
    var once := [x5, y10];
    MergeOnce(key, x10, y10, x5);
    assert Merge(key, [], h) == once;
    assert key(once[0].quality) < key(once[1].quality);
    SecondMergeHead(key, x10, y10, x5, once + h);
  }

  /**
   * With the truncated key, `x;q=0.5, x;q=0.8` keeps `x;q=0.8`: both share
   * bucket 0, so the entry that survives is the last one written, not the one
   * with the lower quality.
   */
  lemma TruncatedMergeKeepsLater(x: string)
    ensures Merge(TruncKey, [], [Value(x, 500, map[]), Value(x, 800, map[])]) == [Value(x, 800, map[])]
  {
    TruncKeyMergesFractions(500);
    TruncKeyMergesFractions(800);
    MergeSameBucket(TruncKey, Value(x, 500, map[]), Value(x, 800, map[]));
  }

  /** Two entries of one token in one bucket merge to the later one. */
  lemma MergeSameBucket(key: int -> int, a: Value, b: Value)
    requires a.token == b.token && key(a.quality) == key(b.quality)
    ensures Merge(key, [], [a, b]) == [b]
  {
    var h := [a, b];
    assert [] + h == h;
    assert SortedByKey(key, h);
    MergeSorted(key, [], h);
    DedupeLater(a, b);
  }

  lemma DedupeLater(a: Value, b: Value)
    requires a.token == b.token
    ensures RemoveDuplicates([a, b]) == [b]
  {
    var h := [a, b];
    TokensPair(a, b);
    assert Tokens([b]) == {b.token} by {
      assert [b][0] == b;
    }
    assert LastIndex(h, b.token) == 1;
    assert FirstIndex(h, b.token) == 0;
    assert CarriesLast(h, b);
    assert InFirstOccurrenceOrder(h, [b]);
    RemoveDuplicatesUnique(h, [b]);
  }

  lemma MergeOnce(key: int -> int, x10: Value, y10: Value, x5: Value)
    requires key(x10.quality) == key(y10.quality) > key(x5.quality)
    requires x10.token == x5.token != y10.token
    ensures Merge(key, [], [x10, y10, x5]) == [x5, y10]
  {
    var h := [x10, y10, x5];
    assert [] + h == h;
    SortedTriple(key, x10, y10, x5);
    MergeSorted(key, [], h);
    DedupeOnce(x10, y10, x5);
  }

  lemma SortedTriple(key: int -> int, a: Value, b: Value, c: Value)
    requires key(a.quality) >= key(b.quality) >= key(c.quality)
    ensures SortedByKey(key, [a, b, c])
  {
    var s := [a, b, c];
    forall i, j | 0 <= i < j < 3 ensures key(s[i].quality) >= key(s[j].quality) {
      assert s[0] == a && s[1] == b && s[2] == c;
    }
  }

  /** Merging input that is already in key order only removes duplicates. */
  lemma MergeSorted(key: int -> int, acceptable: seq<Value>, incoming: seq<Value>)
    requires SortedByKey(key, acceptable + incoming)
    ensures Merge(key, acceptable, incoming) == RemoveDuplicates(acceptable + incoming)
  {
    AlreadySorted(key, acceptable + incoming);
  }

  /** A sequence already ordered by descending key is its own sort. */
  lemma AlreadySorted(key: int -> int, xs: seq<Value>)
    requires SortedByKey(key, xs)
    ensures QualitySort(key, xs) == xs
  {
    QualitySortUnique(key, xs, xs);
  }

  lemma DedupeOnce(x10: Value, y10: Value, x5: Value)
    requires x10.token == x5.token != y10.token
    ensures RemoveDuplicates([x10, y10, x5]) == [x5, y10]
  {
    var h := [x10, y10, x5];
    var r := [x5, y10];
    TokensPair(x5, y10);
    TokensTriple(x10, y10, x5);
    assert LastIndex(h, x5.token) == 2;
    assert LastIndex(h, y10.token) == 1;
    assert FirstIndex(h, x5.token) == 0;
    assert FirstIndex(h, y10.token) == 1;
    assert CarriesLast(h, r[0]) && CarriesLast(h, r[1]);
    assert InFirstOccurrenceOrder(h, r);
    RemoveDuplicatesUnique(h, r);
  }

  lemma TokensPair(a: Value, b: Value)
    ensures Tokens([a, b]) == {a.token, b.token}
  {
    assert [a, b][0] == a && [a, b][1] == b;
  }

  lemma TokensTriple(a: Value, b: Value, c: Value)
    ensures Tokens([a, b, c]) == {a.token, b.token, c.token}
  {
    assert [a, b, c][0] == a && [a, b, c][1] == b && [a, b, c][2] == c;
  }

  lemma SecondMergeHead(key: int -> int, x10: Value, y10: Value, x5: Value, all: seq<Value>)
    requires key(x10.quality) == key(y10.quality) > key(x5.quality)
    requires x10.token == x5.token != y10.token
    requires all == [x5, y10] + [x10, y10, x5]
    ensures |Merge(key, [x5, y10], [x10, y10, x5])| > 0
    ensures Merge(key, [x5, y10], [x10, y10, x5])[0].token == y10.token
  {
    assert Merge(key, [x5, y10], [x10, y10, x5]) == RemoveDuplicates(QualitySort(key, all));
    SecondMergeTop(key, x10, y10, x5, all);
    SortHead(key, all, y10);
    DedupeHead(QualitySort(key, all));
  }

  lemma SecondMergeTop(key: int -> int, x10: Value, y10: Value, x5: Value, all: seq<Value>)
    requires key(x10.quality) == key(y10.quality) > key(x5.quality)
    requires all == [x5, y10] + [x10, y10, x5]
    ensures Bucket(key, all, key(y10.quality)) != [] && Bucket(key, all, key(y10.quality))[0] == y10
    ensures forall i :: 0 <= i < |all| ==> key(all[i].quality) <= key(y10.quality)
  {
    var k := key(y10.quality);
    assert all[1..] == [y10, x10, y10, x5];
    assert Bucket(key, all, k) == Bucket(key, all[1..], k);
    assert Bucket(key, all[1..], k) == [y10] + Bucket(key, all[1..][1..], k);
    forall i | 0 <= i < |all| ensures key(all[i].quality) <= k {
      assert all[i] in {x5, y10, x10};
    }
  }

  /**
   * A sort's first entry is the first entry of the top bucket: when `v`
   * heads the bucket of its key and no key is higher, the sort starts with `v`.
   */
  lemma SortHead(key: int -> int, xs: seq<Value>, v: Value)
    requires Bucket(key, xs, key(v.quality)) != [] && Bucket(key, xs, key(v.quality))[0] == v
    requires forall i :: 0 <= i < |xs| ==> key(xs[i].quality) <= key(v.quality)
    ensures |QualitySort(key, xs)| > 0 && QualitySort(key, xs)[0] == v
  {
    var k := key(v.quality);
    var s := QualitySort(key, xs);
    assert Bucket(key, s, k) == Bucket(key, xs, k) by {
      QualitySortStable(key, xs, k);
    }
    assert key(s[0].quality) == k by {
      QualitySortSpec(key, xs);
      HeadKeyIsTop(key, s, k);
      assert s[0] in multiset(xs);
    }
    BucketHead(key, s);
  }

  /** De-duplication keeps the first entry's token in front. */
  lemma DedupeHead(s: seq<Value>)
    requires |s| > 0
    ensures |RemoveDuplicates(s)| > 0 && RemoveDuplicates(s)[0].token == s[0].token
  {
    var r := RemoveDuplicates(s);
    RemoveDuplicatesSpec(s);
    assert s[0].token in Tokens(s);
    assert s[0].token in Tokens(r);
    var j :| 0 <= j < |r| && r[j].token == s[0].token;
    assert FirstIndex(s, s[0].token) == 0;
    if j > 0 {
      EarlierFirstOccurrence(s, r, j);
      assert false;
    }
  }

  lemma EarlierFirstOccurrence(s: seq<Value>, r: seq<Value>, j: int)
    requires InFirstOccurrenceOrder(s, r)
    requires 0 < j < |r|
    ensures FirstIndex(s, r[0].token) < FirstIndex(s, r[j].token)
  {
  }
}
