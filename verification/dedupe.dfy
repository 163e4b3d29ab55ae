/**
 * `removeDuplicates` (src/Request/Accept/AbstractValues.php, lines 138-146):
 * every entry is written into a PHP array keyed by its token. Assigning to a
 * key that already exists replaces the data but keeps the key's place, so a
 * token ends up where it first occurred, carrying its last occurrence.
 */
module Dedupe {
  import opened Values

  /** Index of the first entry of `xs` with token `t`, or `|xs|` when there is none. */
  function FirstIndex(xs: seq<Value>, t: string): (i: nat)
    ensures i <= |xs|
    ensures i < |xs| ==> xs[i].token == t
    ensures forall j :: 0 <= j < i ==> xs[j].token != t
  {
    if |xs| == 0 then 0
    else if xs[0].token == t then 0
    else 1 + FirstIndex(xs[1..], t)
  }

  /** Index of the last entry of `xs` with token `t`, or `|xs|` when there is none. */
  function LastIndex(xs: seq<Value>, t: string): (i: nat)
    ensures i <= |xs|
    ensures i < |xs| ==> xs[i].token == t
    ensures i < |xs| ==> forall j :: i < j < |xs| ==> xs[j].token != t
    ensures i == |xs| ==> forall j :: 0 <= j < |xs| ==> xs[j].token != t
  {
    if |xs| == 0 then 0
    else if xs[|xs| - 1].token == t then |xs| - 1
    else
      var i := LastIndex(xs[..|xs| - 1], t);
      if i == |xs| - 1 then |xs| else i
  }

  /**
   * One assignment `$unique[$token] = $value` on PHP's ordered array: an
   * existing token keeps its slot and takes the new entry, a new token is
   * appended.
   */
  function Put(u: seq<Value>, v: Value): (r: seq<Value>)
    ensures |r| == |u| || r == u + [v]
  {
    var i := FirstIndex(u, v.token);
    if i < |u| then u[i := v] else u + [v]
  }

  /** The entry of `xs` that carries the data for its token: no later entry shares the token. */
  predicate CarriesLast(xs: seq<Value>, v: Value)
  {
    LastIndex(xs, v.token) < |xs| && v == xs[LastIndex(xs, v.token)]
  }

  /** The tokens of `r` appear in the order of their first occurrence in `xs`. */
  predicate InFirstOccurrenceOrder(xs: seq<Value>, r: seq<Value>)
  {
    forall i, j :: 0 <= i < j < |r| ==> FirstIndex(xs, r[i].token) < FirstIndex(xs, r[j].token)
  }

  /** `removeDuplicates`: the loop of `Put`s over the entries, in order. */
  function RemoveDuplicates(xs: seq<Value>): (r: seq<Value>)
    ensures |r| <= |xs|
  {
    if |xs| == 0 then []
    else Put(RemoveDuplicates(xs[..|xs| - 1]), xs[|xs| - 1])
  }

  /**
   * What `removeDuplicates` leaves: exactly the input's tokens, each once,
   * in the order of their first occurrence, each carrying the data of its
   * last occurrence.
   */
  lemma {:induction false} RemoveDuplicatesSpec(xs: seq<Value>)
    ensures DistinctTokens(RemoveDuplicates(xs))
    ensures Tokens(RemoveDuplicates(xs)) == Tokens(xs)
    ensures forall i :: 0 <= i < |RemoveDuplicates(xs)| ==> CarriesLast(xs, RemoveDuplicates(xs)[i])
    ensures InFirstOccurrenceOrder(xs, RemoveDuplicates(xs))
  {
    if |xs| > 0 {
      var p := xs[..|xs| - 1];
      var v := xs[|xs| - 1];
      var u := RemoveDuplicates(p);
      RemoveDuplicatesSpec(p);
      assert xs == p + [v];
      assert RemoveDuplicates(xs) == Put(u, v);
      PutDistinct(u, v);
      PutTokens(u, v);
      TokensAppend(p, v);
      PutLast(u, p, v);
      PutFirst(u, p, v);
    }
  }

  // ---------------------------------------------------------------------------
  // One step of the loop
  // ---------------------------------------------------------------------------

  lemma TokenIn(xs: seq<Value>, t: string)
    ensures t in Tokens(xs) <==> FirstIndex(xs, t) < |xs|
  {
    if t in Tokens(xs) {
      var i :| 0 <= i < |xs| && xs[i].token == t;
    }
  }

  lemma TokensAppend(p: seq<Value>, v: Value)
    ensures Tokens(p + [v]) == Tokens(p) + {v.token}
  {
    var xs := p + [v];
    forall t | t in Tokens(xs) ensures t in Tokens(p) + {v.token} {
      var i :| 0 <= i < |xs| && xs[i].token == t;
      if i < |p| {
        assert xs[i] == p[i];
      }
    }
    forall t | t in Tokens(p) ensures t in Tokens(xs) {
      var i :| 0 <= i < |p| && p[i].token == t;
      assert xs[i] == p[i];
    }
    assert xs[|p|] == v;
  }

  lemma PutDistinct(u: seq<Value>, v: Value)
    requires DistinctTokens(u)
    ensures DistinctTokens(Put(u, v))
  {
  }

  lemma PutTokens(u: seq<Value>, v: Value)
    ensures Tokens(Put(u, v)) == Tokens(u) + {v.token}
  {
    var i := FirstIndex(u, v.token);
    if i < |u| {
      var r := u[i := v];
      forall t | t in Tokens(u) ensures t in Tokens(r) {
        var j :| 0 <= j < |u| && u[j].token == t;
        assert r[j].token == t;
      }
      forall t | t in Tokens(r) ensures t in Tokens(u) {
        var j :| 0 <= j < |r| && r[j].token == t;
        assert u[j].token == t;
      }
    } else {
      TokensAppend(u, v);
    }
  }

  lemma LastIndexAppend(p: seq<Value>, v: Value, t: string)
    ensures LastIndex(p + [v], t) == if t == v.token then |p|
                                     else if LastIndex(p, t) == |p| then |p| + 1
                                     else LastIndex(p, t)
  {
    assert (p + [v])[..|p|] == p;
  }

  lemma FirstIndexAppend(p: seq<Value>, v: Value, t: string)
    ensures FirstIndex(p + [v], t) == if FirstIndex(p, t) < |p| then FirstIndex(p, t)
                                      else if t == v.token then |p| else |p| + 1
  {
    var xs := p + [v];
    var i := FirstIndex(xs, t);
    var j := FirstIndex(p, t);
    if j < |p| {
      assert xs[j] == p[j];
    } else {
      forall k | 0 <= k < |p| ensures xs[k].token != t {
        assert xs[k] == p[k];
      }
      assert xs[|p|] == v;
    }
  }

  lemma PutLast(u: seq<Value>, p: seq<Value>, v: Value)
    requires DistinctTokens(u)
    requires forall i :: 0 <= i < |u| ==> CarriesLast(p, u[i])
    ensures forall i :: 0 <= i < |Put(u, v)| ==> CarriesLast(p + [v], Put(u, v)[i])
  {
    var r := Put(u, v);
    var xs := p + [v];
    forall i | 0 <= i < |r| ensures CarriesLast(xs, r[i]) {
      LastIndexAppend(p, v, r[i].token);
      if r[i] != v {
        assert r[i] == u[i];
        assert r[i].token != v.token;
        assert xs[LastIndex(p, r[i].token)] == p[LastIndex(p, r[i].token)];
      } else {
        assert xs[|p|] == v;
      }
    }
  }

  lemma PutFirst(u: seq<Value>, p: seq<Value>, v: Value)
    requires Tokens(u) == Tokens(p)
    requires InFirstOccurrenceOrder(p, u)
    ensures InFirstOccurrenceOrder(p + [v], Put(u, v))
  {
    FirstIndexKept(u, p, v);
    if FirstIndex(u, v.token) == |u| {
      PutFirstNew(u, p, v);
    } else {
      PutFirstExisting(u, p, v);
    }
  }

  /** Appending an entry moves no first occurrence of a token already present. */
  lemma FirstIndexKept(u: seq<Value>, p: seq<Value>, v: Value)
    requires Tokens(u) == Tokens(p)
    ensures forall i :: 0 <= i < |u| ==> FirstIndex(p + [v], u[i].token) == FirstIndex(p, u[i].token) < |p|
  {
    forall i | 0 <= i < |u| ensures FirstIndex(p + [v], u[i].token) == FirstIndex(p, u[i].token) < |p| {
      assert u[i].token in Tokens(u);
      TokenIn(p, u[i].token);
      FirstIndexAppend(p, v, u[i].token);
    }
  }

  lemma PutFirstNew(u: seq<Value>, p: seq<Value>, v: Value)
    requires Tokens(u) == Tokens(p) && FirstIndex(u, v.token) == |u|
    requires InFirstOccurrenceOrder(p, u)
    requires forall i :: 0 <= i < |u| ==> FirstIndex(p + [v], u[i].token) == FirstIndex(p, u[i].token) < |p|
    ensures InFirstOccurrenceOrder(p + [v], Put(u, v))
  {
    var xs := p + [v];
    TokenIn(u, v.token);
    TokenIn(p, v.token);
    FirstIndexAppend(p, v, v.token);
    assert FirstIndex(xs, v.token) == |p|;
    assert Put(u, v) == u + [v];
    OrderKept(u, p, v);
    AppendLater(u, xs, v);
  }

  lemma OrderKept(u: seq<Value>, p: seq<Value>, v: Value)
    requires InFirstOccurrenceOrder(p, u)
    requires forall i :: 0 <= i < |u| ==> FirstIndex(p + [v], u[i].token) == FirstIndex(p, u[i].token) < |p|
    ensures InFirstOccurrenceOrder(p + [v], u)
  {
  }

  /** Appending an entry whose first occurrence comes after all of `u`'s keeps the order. */
  lemma AppendLater(u: seq<Value>, xs: seq<Value>, v: Value)
    requires InFirstOccurrenceOrder(xs, u)
    requires forall i :: 0 <= i < |u| ==> FirstIndex(xs, u[i].token) < FirstIndex(xs, v.token)
    ensures InFirstOccurrenceOrder(xs, u + [v])
  {
    var r := u + [v];
    forall i, j | 0 <= i < j < |r| ensures FirstIndex(xs, r[i].token) < FirstIndex(xs, r[j].token) {
      assert r[i] == u[i];
      if j < |u| {
        assert r[j] == u[j];
      } else {
        assert r[j] == v;
      }
    }
  }

  lemma PutFirstExisting(u: seq<Value>, p: seq<Value>, v: Value)
    requires FirstIndex(u, v.token) < |u|
    requires InFirstOccurrenceOrder(p, u)
    requires forall i :: 0 <= i < |u| ==> FirstIndex(p + [v], u[i].token) == FirstIndex(p, u[i].token) < |p|
    ensures InFirstOccurrenceOrder(p + [v], Put(u, v))
  {
    OrderKept(u, p, v);
    PutExistingTokens(u, v);
    SameTokensSameOrder(p + [v], u, Put(u, v));
  }

  /** Putting an entry whose token is present changes no token. */
  lemma PutExistingTokens(u: seq<Value>, v: Value)
    requires FirstIndex(u, v.token) < |u|
    ensures |Put(u, v)| == |u|
    ensures forall k :: 0 <= k < |u| ==> Put(u, v)[k].token == u[k].token
  {
  }

  lemma SameTokensSameOrder(xs: seq<Value>, u: seq<Value>, r: seq<Value>)
    requires InFirstOccurrenceOrder(xs, u)
    requires |r| == |u| && forall k :: 0 <= k < |r| ==> r[k].token == u[k].token
    ensures InFirstOccurrenceOrder(xs, r)
  {
    forall i, j | 0 <= i < j < |r| ensures FirstIndex(xs, r[i].token) < FirstIndex(xs, r[j].token) {
      assert r[i].token == u[i].token && r[j].token == u[j].token;
    }
  }

  // ---------------------------------------------------------------------------
  // Consequences
  // ---------------------------------------------------------------------------

  /** Entries whose tokens are already distinct pass through unchanged. */
  lemma {:induction false} RemoveDuplicatesOfDistinct(xs: seq<Value>)
    requires DistinctTokens(xs)
    ensures RemoveDuplicates(xs) == xs
  {
    if |xs| > 0 {
      var p := xs[..|xs| - 1];
      var v := xs[|xs| - 1];
      DistinctInit(xs, p);
      RemoveDuplicatesOfDistinct(p);
      PutFresh(xs, p);
      RemoveDuplicatesSnoc(p, v);
      assert p + [v] == xs;
    }
  }

  /** Putting the last of distinct entries onto the others appends it. */
  lemma PutFresh(xs: seq<Value>, p: seq<Value>)
    requires |xs| > 0 && p == xs[..|xs| - 1]
    requires forall k :: 0 <= k < |p| ==> p[k].token != xs[|xs| - 1].token
    ensures Put(p, xs[|xs| - 1]) == xs
  {
    assert FirstIndex(p, xs[|xs| - 1].token) == |p|;
    assert p + [xs[|xs| - 1]] == xs;
  }

  /** The prefix of distinct entries is distinct and lacks the last token. */
  lemma DistinctInit(xs: seq<Value>, p: seq<Value>)
    requires |xs| > 0 && DistinctTokens(xs) && p == xs[..|xs| - 1]
    ensures DistinctTokens(p)
    ensures forall k :: 0 <= k < |p| ==> p[k].token != xs[|xs| - 1].token
  {
    forall i, j | 0 <= i < j < |p| ensures p[i].token != p[j].token {
      assert p[i] == xs[i] && p[j] == xs[j];
    }
  }

  /** The de-duplication loop is a left fold of `Put`. */
  lemma RemoveDuplicatesSnoc(u: seq<Value>, v: Value)
    ensures RemoveDuplicates(u + [v]) == Put(RemoveDuplicates(u), v)
  {
    assert (u + [v])[..|u + [v]| - 1] == u;
  }

  /**
   * The four properties of `RemoveDuplicates` pin its result down: any
   * sequence with distinct tokens, the input's tokens, the data of each
   * token's last occurrence and the order of first occurrences is that
   * result.
   */
  lemma RemoveDuplicatesUnique(xs: seq<Value>, r: seq<Value>)
    requires DistinctTokens(r)
    requires Tokens(r) == Tokens(xs)
    requires forall i :: 0 <= i < |r| ==> CarriesLast(xs, r[i])
    requires InFirstOccurrenceOrder(xs, r)
    ensures r == RemoveDuplicates(xs)
  {
    RemoveDuplicatesSpec(xs);
    SameCharacterisation(xs, r, RemoveDuplicates(xs));
  }

  lemma {:induction false} SameCharacterisation(xs: seq<Value>, a: seq<Value>, b: seq<Value>)
    requires DistinctTokens(a) && DistinctTokens(b)
    requires Tokens(a) == Tokens(b)
    requires forall i :: 0 <= i < |a| ==> CarriesLast(xs, a[i])
    requires forall i :: 0 <= i < |b| ==> CarriesLast(xs, b[i])
    requires InFirstOccurrenceOrder(xs, a) && InFirstOccurrenceOrder(xs, b)
    ensures a == b
    decreases |a|
  {
    if |a| == 0 {
      if |b| > 0 {
        HeadToken(b);
        assert false;
      }
    } else {
      assert a[0].token in Tokens(b);
      assert |b| > 0;
      HeadsAgree(xs, a, b);
      TailCharacterisation(xs, a, b);
      SameCharacterisation(xs, a[1..], b[1..]);
      assert a == [a[0]] + a[1..] && b == [b[0]] + b[1..];
    }
  }

  lemma HeadToken(b: seq<Value>)
    requires |b| > 0
    ensures b[0].token in Tokens(b)
  {
  }

  lemma HeadsAgree(xs: seq<Value>, a: seq<Value>, b: seq<Value>)
    requires |a| > 0 && |b| > 0
    requires DistinctTokens(a) && DistinctTokens(b)
    requires Tokens(a) == Tokens(b)
    requires forall i :: 0 <= i < |a| ==> CarriesLast(xs, a[i])
    requires forall i :: 0 <= i < |b| ==> CarriesLast(xs, b[i])
    requires InFirstOccurrenceOrder(xs, a) && InFirstOccurrenceOrder(xs, b)
    ensures a[0] == b[0]
  {
    assert a[0].token in Tokens(b);
    var j :| 0 <= j < |b| && b[j].token == a[0].token;
    assert b[0].token in Tokens(a);
    var k :| 0 <= k < |a| && a[k].token == b[0].token;
    assert a[0].token == b[0].token;
    assert CarriesLast(xs, a[0]) && CarriesLast(xs, b[0]);
  }

  lemma TailCharacterisation(xs: seq<Value>, a: seq<Value>, b: seq<Value>)
    requires |a| > 0 && |b| > 0 && a[0] == b[0]
    requires DistinctTokens(a) && DistinctTokens(b)
    requires Tokens(a) == Tokens(b)
    ensures Tokens(a[1..]) == Tokens(b[1..])
  {
    DropHeadTokens(a);
    DropHeadTokens(b);
  }

  lemma DropHeadTokens(a: seq<Value>)
    requires |a| > 0 && DistinctTokens(a)
    ensures Tokens(a[1..]) == Tokens(a) - {a[0].token}
  {
    forall t | t in Tokens(a[1..]) ensures t in Tokens(a) - {a[0].token} {
      var i :| 0 <= i < |a[1..]| && a[1..][i].token == t;
      assert a[i + 1].token == t;
    }
    forall t | t in Tokens(a) - {a[0].token} ensures t in Tokens(a[1..]) {
      var i :| 0 <= i < |a| && a[i].token == t;
      assert a[1..][i - 1] == a[i];
    }
  }
}
