/**
 * The value record a parsed Accept-style header is made of, and the token
 * vocabulary shared by the sort, the de-duplication and the negotiation.
 */
module Values {

  /**
   * A parameter value: the text captured by the parameter pattern, or PHP
   * `null`, which is what a segment that does not match the pattern stores.
   */
  datatype ParamValue = Str(text: string) | Null

  /**
   * One entry of an Accept-style header: the bare token (`text/html`, `en`,
   * `*`), its quality in thousandths (the qvalue grain of section 5.3.1 of
   * RFC 7231, so 1000 stands for 1.0) and its remaining parameters.
   */
  datatype Value = Value(token: string, quality: int, params: map<string, ParamValue>)
  {
    /** The "anything is acceptable" entry. */
    predicate IsWildcard()
    {
      token == "*"
    }
  }

  /** The quality of an entry that carries no `q` parameter: 1.0. */
  const DefaultQuality: int := 1000

  /** The tokens occurring in `xs`. */
  function Tokens(xs: seq<Value>): set<string>
  {
    set i | 0 <= i < |xs| :: xs[i].token
  }

  /** No token occurs twice in `xs`. */
  predicate DistinctTokens(xs: seq<Value>)
  {
    forall i, j :: 0 <= i < j < |xs| ==> xs[i].token != xs[j].token
  }
}
