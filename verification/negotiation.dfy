/**
 * `negotiate` (src/Request/Accept/AbstractValues.php, lines 175-212): the
 * available strings are converted into a value set of their own, and the
 * acceptable entries are walked in order; the first one with a non-zero
 * quality that is the wildcard, or that matches some available entry,
 * decides the result.
 *
 * The `match` test belongs to the concrete value classes, which are not part
 * of this model; it is a parameter, and `TokenMatch` is its simplest form.
 */
module Negotiation {
  import opened Wrappers
  import opened Values
  import opened ValueSet

  /** Equal tokens: the `match` test of a value class that compares nothing else. */
  predicate TokenMatch(accept: Value, avail: Value)
  {
    accept.token == avail.token
  }

  /** Index of the first entry of `available` that `accept` matches, or `|available|`. */
  function FirstMatch(matches: (Value, Value) -> bool, accept: Value, available: seq<Value>): (i: nat)
    ensures i <= |available|
    ensures i < |available| ==> matches(accept, available[i])
    ensures forall j :: 0 <= j < i ==> !matches(accept, available[j])
  {
    if |available| == 0 then 0
    else if matches(accept, available[0]) then 0
    else 1 + FirstMatch(matches, accept, available[1..])
  }

  /**
   * An acceptable entry that ends the walk: its quality is not zero, and it
   * is the wildcard or matches some available entry.
   */
  predicate Decisive(matches: (Value, Value) -> bool, accept: Value, available: seq<Value>)
  {
    accept.quality != 0
    && (accept.IsWildcard() || exists j :: 0 <= j < |available| && matches(accept, available[j]))
  }

  /** What a decisive entry returns: the first available entry for the wildcard, else the first match. */
  function Pick(matches: (Value, Value) -> bool, accept: Value, available: seq<Value>): Value
    requires |available| > 0 && Decisive(matches, accept, available)
  {
    if accept.IsWildcard() then available[0]
    else available[FirstMatch(matches, accept, available)]
  }

  /**
   * The loop over the acceptable entries (lines 194-209), against a
   * non-empty converted available set. It succeeds exactly when some entry
   * is decisive, and then returns an available entry.
   */
  function Walk(matches: (Value, Value) -> bool, acceptable: seq<Value>, available: seq<Value>): (r: Option<Value>)
    requires |available| > 0
    ensures r.Some? <==> exists i :: 0 <= i < |acceptable| && Decisive(matches, acceptable[i], available)
    ensures r.Some? ==> r.value in available
    decreases |acceptable|
  {
    if |acceptable| == 0 then None
    else
      var accept := acceptable[0];
      var rest := Walk(matches, acceptable[1..], available);
      DecisiveInTail(matches, acceptable, available);
      if accept.quality == 0 then rest
      else if accept.IsWildcard() then Some(available[0])
      else
        var j := FirstMatch(matches, accept, available);
        if j < |available| then Some(available[j]) else rest
  }

  lemma DecisiveInTail(matches: (Value, Value) -> bool, acceptable: seq<Value>, available: seq<Value>)
    requires |acceptable| > 0
    ensures (exists i :: 0 <= i < |acceptable| && Decisive(matches, acceptable[i], available))
        <==> (Decisive(matches, acceptable[0], available)
              || exists i :: 0 <= i < |acceptable[1..]| && Decisive(matches, acceptable[1..][i], available))
  {
    if exists i :: 0 <= i < |acceptable| && Decisive(matches, acceptable[i], available) {
      var i :| 0 <= i < |acceptable| && Decisive(matches, acceptable[i], available);
      if i > 0 {
        assert acceptable[1..][i - 1] == acceptable[i];
      }
    }
    if exists i :: 0 <= i < |acceptable[1..]| && Decisive(matches, acceptable[1..][i], available) {
      var i :| 0 <= i < |acceptable[1..]| && Decisive(matches, acceptable[1..][i], available);
      assert acceptable[i + 1] == acceptable[1..][i];
    }
  }

  /** The walk returns the pick of the first decisive entry. */
  lemma {:induction false} WalkPicksFirstDecisive(matches: (Value, Value) -> bool, acceptable: seq<Value>, available: seq<Value>, i: nat)
    requires |available| > 0
    requires i < |acceptable| && Decisive(matches, acceptable[i], available)
    requires forall k :: 0 <= k < i ==> !Decisive(matches, acceptable[k], available)
    ensures Walk(matches, acceptable, available) == Some(Pick(matches, acceptable[i], available))
    decreases i
  {
    var accept := acceptable[0];
    if i > 0 {
      assert !Decisive(matches, accept, available);
      forall k | 0 <= k < i - 1 ensures !Decisive(matches, acceptable[1..][k], available) {
        assert acceptable[1..][k] == acceptable[k + 1];
      }
      assert acceptable[1..][i - 1] == acceptable[i];
      WalkPicksFirstDecisive(matches, acceptable[1..], available, i - 1);
      if accept.quality != 0 && !accept.IsWildcard() {
        NoMatch(matches, accept, available);
      }
    }
  }

  lemma NoMatch(matches: (Value, Value) -> bool, accept: Value, available: seq<Value>)
    requires accept.quality != 0 && !accept.IsWildcard()
    requires !Decisive(matches, accept, available)
    ensures FirstMatch(matches, accept, available) == |available|
  {
  }

  /** The acceptable entries with a non-zero quality, in order. */
  function NonZero(acceptable: seq<Value>): (r: seq<Value>)
    ensures |r| <= |acceptable|
    ensures forall i :: 0 <= i < |r| ==> r[i].quality != 0 && r[i] in acceptable
  {
    if |acceptable| == 0 then []
    else if acceptable[0].quality == 0 then NonZero(acceptable[1..])
    else [acceptable[0]] + NonZero(acceptable[1..])
  }

  /** Entries of quality zero never influence the walk: removing them changes nothing. */
  lemma {:induction false} WalkIgnoresZeroQuality(matches: (Value, Value) -> bool, acceptable: seq<Value>, available: seq<Value>)
    requires |available| > 0
    ensures Walk(matches, acceptable, available) == Walk(matches, NonZero(acceptable), available)
    decreases |acceptable|
  {
    if |acceptable| > 0 {
      WalkIgnoresZeroQuality(matches, acceptable[1..], available);
      if acceptable[0].quality != 0 {
        var nz := NonZero(acceptable);
        assert nz[0] == acceptable[0];
        assert nz[1..] == NonZero(acceptable[1..]);
      }
    }
  }

  /**
   * `negotiate`: nothing available gives no result (`false` in the source);
   * an empty acceptable set gives the first converted available entry;
   * otherwise the walk decides, and succeeds exactly when some acceptable
   * entry is decisive against the converted available set.
   */
  function Negotiate(key: int -> int, matches: (Value, Value) -> bool, acceptable: seq<Value>, available: seq<string>): (r: Option<Value>)
    ensures |available| == 0 ==> r == None
    ensures |available| > 0 && |acceptable| == 0 ==>
              |ConvertAvailable(key, available)| > 0 && r == Some(ConvertAvailable(key, available)[0])
    ensures r.Some? ==> r.value in ConvertAvailable(key, available)
    ensures |acceptable| > 0 ==>
              (r.Some? <==> |available| > 0
                            && exists i :: 0 <= i < |acceptable| && Decisive(matches, acceptable[i], ConvertAvailable(key, available)))
  {
    if |available| == 0 then None
    else
      var converted := ConvertAvailable(key, available);
      ConvertAvailableNonEmpty(key, available);
      if |acceptable| == 0 then Some(converted[0])
      else Walk(matches, acceptable, converted)
  }

  /** The first decisive acceptable entry determines the negotiated value. */
  lemma NegotiatePicksFirstDecisive(key: int -> int, matches: (Value, Value) -> bool, acceptable: seq<Value>,
                                    available: seq<string>, converted: seq<Value>, i: nat)
    requires |available| > 0 && converted == ConvertAvailable(key, available)
    requires i < |acceptable| && Decisive(matches, acceptable[i], converted)
    requires forall k :: 0 <= k < i ==> !Decisive(matches, acceptable[k], converted)
    ensures |converted| > 0 && Negotiate(key, matches, acceptable, available) == Some(Pick(matches, acceptable[i], converted))
  {
    ConvertAvailableNonEmpty(key, available);
    WalkPicksFirstDecisive(matches, acceptable, converted, i);
  }

  /** An acceptable set in which every entry has quality zero refuses everything. */
  lemma AllZeroRefuses(key: int -> int, matches: (Value, Value) -> bool, acceptable: seq<Value>, available: seq<string>)
    requires |acceptable| > 0
    requires forall i :: 0 <= i < |acceptable| ==> acceptable[i].quality == 0
    ensures Negotiate(key, matches, acceptable, available) == None
  {
    if |available| > 0 {
      var converted := ConvertAvailable(key, available);
      ConvertAvailableNonEmpty(key, available);
      NonZeroOfZeros(acceptable);
      WalkIgnoresZeroQuality(matches, acceptable, converted);
    }
  }

  lemma NonZeroOfZeros(acceptable: seq<Value>)
    requires forall i :: 0 <= i < |acceptable| ==> acceptable[i].quality == 0
    ensures NonZero(acceptable) == []
  {
    if |acceptable| > 0 {
      assert acceptable[0].quality == 0;
      NonZeroOfZeros(acceptable[1..]);
    }
  }
}
