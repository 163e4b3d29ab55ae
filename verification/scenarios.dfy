/**
 * Negotiation outcomes for available lists of plain strings (no `,`, no
 * `;`), with the token-equality match. Each lemma holds for both bucket
 * keys and for any server key.
 */
module Scenarios {
  import opened Wrappers
  import opened Text
  import opened Values
  import opened ValueSet
  import opened Negotiation

  /** No acceptable entries: the first available string wins. */
  lemma EmptyAcceptableTakesFirst(key: int -> int, matches: (Value, Value) -> bool, available: seq<string>)
    requires |available| > 0
    requires forall i :: 0 <= i < |available| ==> Plain(available[i])
    ensures Negotiate(key, matches, [], available) == Some(PlainValue(available[0]))
  {
    ConvertedHead(key, available);
  }

  /** The first converted entry is the first available string, trimmed. */
  lemma ConvertedHead(key: int -> int, available: seq<string>)
    requires |available| > 0
    requires forall i :: 0 <= i < |available| ==> Plain(available[i])
    ensures |ConvertAvailable(key, available)| > 0 && ConvertAvailable(key, available)[0] == PlainValue(available[0])
  {
    ConvertPlain(key, available);
    FirstOccurrencesHead(PlainValues(available));
  }

  /** A header missing from the server variables leaves the set empty, so the first available string wins. */
  lemma AbsentHeaderTakesFirst(key: int -> int, serverKey: string, vars: map<string, string>, available: seq<string>)
    requires serverKey !in vars
    requires |available| > 0
    requires forall i :: 0 <= i < |available| ==> Plain(available[i])
    ensures Negotiate(key, TokenMatch, Set(key, serverKey, Server(vars)), available) == Some(PlainValue(available[0]))
  {
    EmptyAcceptableTakesFirst(key, TokenMatch, available);
  }

  /**
   * An empty header is a single entry with the empty token at quality 1.0,
   * not an empty set: unless an available string trims to nothing,
   * negotiation fails.
   */
  lemma EmptyHeaderRefuses(key: int -> int, serverKey: string, available: seq<string>)
    requires forall i :: 0 <= i < |available| ==> Plain(available[i]) && Trim(available[i]) != ""
    ensures Negotiate(key, TokenMatch, Set(key, serverKey, Header("")), available) == None
  {
    SetEmptyHeader(key, serverKey);
    var accept := Value("", DefaultQuality, map[]);
    if |available| > 0 {
      var converted := ConvertAvailable(key, available);
      ConvertAvailableNonEmpty(key, available);
      UnavailableNotDecisive(key, accept, available, converted);
      assert Negotiate(key, TokenMatch, [accept], available) == Walk(TokenMatch, [accept], converted);
      WalkOfOne(TokenMatch, accept, converted);
    }
  }

  lemma WalkOfOne(matches: (Value, Value) -> bool, accept: Value, available: seq<Value>)
    requires |available| > 0 && !Decisive(matches, accept, available)
    ensures Walk(matches, [accept], available) == None
  {
  }

  lemma UnavailableNotDecisive(key: int -> int, accept: Value, available: seq<string>, converted: seq<Value>)
    requires converted == ConvertAvailable(key, available) && !accept.IsWildcard()
    requires forall i :: 0 <= i < |available| ==> Plain(available[i]) && Trim(available[i]) != accept.token
    ensures !Decisive(TokenMatch, accept, converted)
  {
    NotAvailable(key, accept, available);
  }

  /** A token that no available string trims to is never matched. */
  lemma NotAvailable(key: int -> int, accept: Value, available: seq<string>)
    requires forall i :: 0 <= i < |available| ==> Plain(available[i]) && Trim(available[i]) != accept.token
    ensures forall j :: 0 <= j < |ConvertAvailable(key, available)| ==> !TokenMatch(accept, ConvertAvailable(key, available)[j])
  {
    var converted := ConvertAvailable(key, available);
    var plain := PlainValues(available);
    assert forall j :: 0 <= j < |converted| ==> converted[j] in plain by {
      ConvertPlain(key, available);
    }
    forall j | 0 <= j < |converted| ensures !TokenMatch(accept, converted[j]) {
      var k :| 0 <= k < |plain| && plain[k] == converted[j];
      assert plain[k] == PlainValue(available[k]);
    }
  }

  /**
   * A preferred token that is not available falls through to a lower
   * wildcard, which takes the first available string.
   */
  lemma WildcardFallsBack(key: int -> int, t: string, params: map<string, ParamValue>, available: seq<string>)
    requires |available| > 0 && t != "*"
    requires forall i :: 0 <= i < |available| ==> Plain(available[i]) && Trim(available[i]) != t
    ensures Negotiate(key, TokenMatch, [Value(t, DefaultQuality, params), Value("*", 500, map[])], available)
         == Some(PlainValue(available[0]))
  {
    var acceptable := [Value(t, DefaultQuality, params), Value("*", 500, map[])];
    var converted := ConvertAvailable(key, available);
    ConvertAvailableNonEmpty(key, available);
    UnavailableNotDecisive(key, acceptable[0], available, converted);
    assert Negotiate(key, TokenMatch, acceptable, available) == Walk(TokenMatch, acceptable, converted);
    WalkToWildcard(TokenMatch, acceptable[0], acceptable[1], converted);
    ConvertedHead(key, available);
  }

  lemma WalkToWildcard(matches: (Value, Value) -> bool, accept: Value, wildcard: Value, available: seq<Value>)
    requires |available| > 0 && !Decisive(matches, accept, available)
    requires wildcard.IsWildcard() && wildcard.quality != 0
    ensures Walk(matches, [accept, wildcard], available) == Some(available[0])
  {
    WalkPicksFirstDecisive(matches, [accept, wildcard], available, 1);
  }

  /**
   * A wildcard ahead of an explicit refusal (`*, t;q=0`) still returns the
   * first available string, even when that string is the refused token.
   */
  lemma WildcardOverridesRefusal(key: int -> int, t: string)
    requires Plain(t)
    ensures Negotiate(key, TokenMatch, [Value("*", DefaultQuality, map[]), Value(Trim(t), 0, map[])], [t])
         == Some(PlainValue(t))
  {
    var acceptable := [Value("*", DefaultQuality, map[]), Value(Trim(t), 0, map[])];
    var converted := ConvertAvailable(key, [t]);
    ConvertedHead(key, [t]);
    NegotiatePicksFirstDecisive(key, TokenMatch, acceptable, [t], converted, 0);
  }

  /** A sole refusal of the only available token fails. */
  lemma RefusalOnlyFails(key: int -> int, t: string)
    ensures Negotiate(key, TokenMatch, [Value(t, 0, map[])], [t]) == None
  {
    AllZeroRefuses(key, TokenMatch, [Value(t, 0, map[])], [t]);
  }
}
