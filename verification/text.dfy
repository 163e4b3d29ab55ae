/**
 * The two PHP string primitives the parser is built on: `explode` (split on a
 * separator character) and `trim` (strip surrounding whitespace). Strings are
 * PHP byte strings; one `char` stands for one byte.
 */
module Text {

  /** Number of occurrences of `c` in `s`. */
  function Count(s: string, c: char): (n: nat)
    ensures n <= |s|
    ensures n == 0 <==> c !in s
  {
    if |s| == 0 then 0
    else (if s[0] == c then 1 else 0) + Count(s[1..], c)
  }

  /** The inverse of `Explode`: the pieces joined with `sep` between them. */
  function Implode(pieces: seq<string>, sep: char): string
  {
    if |pieces| == 0 then ""
    else if |pieces| == 1 then pieces[0]
    else pieces[0] + [sep] + Implode(pieces[1..], sep)
  }

  /**
   * PHP `explode(sep, s)` for a one-character separator: the maximal runs of
   * `s` between separators. There is always one more piece than separators,
   * so the empty string yields one empty piece.
   */
  function Explode(s: string, sep: char): (pieces: seq<string>)
    ensures |pieces| == Count(s, sep) + 1
    ensures forall i :: 0 <= i < |pieces| ==> sep !in pieces[i]
    ensures Implode(pieces, sep) == s
    ensures pieces[0] <= s && (|pieces[0]| == |s| || s[|pieces[0]|] == sep)
  {
    if |s| == 0 then [""]
    else
      var rest := Explode(s[1..], sep);
      if s[0] == sep then [""] + rest
      else [[s[0]] + rest[0]] + rest[1..]
  }

  /** Splitting a joined list gives the list back, when no piece contains the separator. */
  lemma {:induction false} ExplodeImplode(pieces: seq<string>, sep: char)
    requires |pieces| > 0
    requires forall i :: 0 <= i < |pieces| ==> sep !in pieces[i]
    ensures Explode(Implode(pieces, sep), sep) == pieces
    decreases |pieces|, |pieces[0]|
  {
    if |pieces| == 1 {
      ExplodeNoSeparator(pieces[0], sep);
    } else if |pieces[0]| == 0 {
      var tail := Implode(pieces[1..], sep);
      ExplodeImplode(pieces[1..], sep);
      ImplodeEmptyFirst(pieces, sep);
      ExplodeCons(sep, tail, sep);
      assert [""] + pieces[1..] == pieces;
    } else {
      var shorter := [pieces[0][1..]] + pieces[1..];
      ShorterHasNoSeparator(pieces, sep);
      ExplodeImplode(shorter, sep);
      ImplodeFirstChar(pieces, sep);
      ExplodeCons(pieces[0][0], Implode(shorter, sep), sep);
      assert shorter[1..] == pieces[1..];
      assert [pieces[0][0]] + pieces[0][1..] == pieces[0];
      assert [[pieces[0][0]] + shorter[0]] + shorter[1..] == pieces;
    }
  }

  lemma ShorterHasNoSeparator(pieces: seq<string>, sep: char)
    requires |pieces| > 0 && |pieces[0]| > 0
    requires forall i :: 0 <= i < |pieces| ==> sep !in pieces[i]
    ensures forall i :: 0 <= i < |[pieces[0][1..]] + pieces[1..]| ==> sep !in ([pieces[0][1..]] + pieces[1..])[i]
  {
    var shorter := [pieces[0][1..]] + pieces[1..];
    forall i | 0 <= i < |shorter| ensures sep !in shorter[i] {
      if i == 0 {
        assert sep !in pieces[0];
      } else {
        assert shorter[i] == pieces[i];
      }
    }
  }

  /** One step of `Explode` from the front. */
  lemma ExplodeCons(c: char, x: string, sep: char)
    ensures Explode([c] + x, sep)
         == if c == sep then [""] + Explode(x, sep) else [[c] + Explode(x, sep)[0]] + Explode(x, sep)[1..]
  {
    assert ([c] + x)[1..] == x;
  }

  lemma ImplodeEmptyFirst(pieces: seq<string>, sep: char)
    requires |pieces| > 1 && pieces[0] == ""
    ensures Implode(pieces, sep) == [sep] + Implode(pieces[1..], sep)
  {
  }

  lemma ImplodeFirstChar(pieces: seq<string>, sep: char)
    requires |pieces| > 0 && |pieces[0]| > 0
    ensures Implode(pieces, sep) == [pieces[0][0]] + Implode([pieces[0][1..]] + pieces[1..], sep)
  {
    var shorter := [pieces[0][1..]] + pieces[1..];
    assert shorter[1..] == pieces[1..];
    assert pieces[0] == [pieces[0][0]] + pieces[0][1..];
  }

  /** A string without the separator explodes into itself alone. */
  lemma {:induction false} ExplodeNoSeparator(s: string, sep: char)
    requires sep !in s
    ensures Explode(s, sep) == [s]
  {
    if |s| > 0 {
      ExplodeNoSeparator(s[1..], sep);
      assert [s[0]] + s[1..] == s;
    }
  }

  /** The bytes PHP `trim` strips by default: space, tab, LF, CR, NUL and vertical tab. */
  predicate IsTrimSpace(c: char)
  {
    c == ' ' || c == '\t' || c == '\n' || c == '\r' || c == '\0' || c == '\U{B}'
  }

  /** Length of the run of trim-space at the front of `s`. */
  function LeadingSpace(s: string): (n: nat)
    ensures n <= |s|
    ensures forall i :: 0 <= i < n ==> IsTrimSpace(s[i])
    ensures n == |s| || !IsTrimSpace(s[n])
  {
    if |s| > 0 && IsTrimSpace(s[0]) then 1 + LeadingSpace(s[1..]) else 0
  }

  /** Length of the run of trim-space at the back of `s`. */
  function TrailingSpace(s: string): (n: nat)
    ensures n <= |s|
    ensures forall i :: |s| - n <= i < |s| ==> IsTrimSpace(s[i])
    ensures n == |s| || !IsTrimSpace(s[|s| - n - 1])
  {
    if |s| > 0 && IsTrimSpace(s[|s| - 1]) then 1 + TrailingSpace(s[..|s| - 1]) else 0
  }

  /** PHP `trim(s)`: `s` with all leading and trailing trim-space removed. */
  function Trim(s: string): string
  {
    var i := LeadingSpace(s);
    s[i..|s| - TrailingSpace(s[i..])]
  }

  /**
   * The result of `Trim` is the infix of `s` reached by removing only
   * trim-space, and its own ends are not trim-space.
   */
  lemma TrimSpec(s: string)
    ensures exists i, j ::
              && 0 <= i <= j <= |s| && Trim(s) == s[i..j]
              && (forall k :: 0 <= k < i ==> IsTrimSpace(s[k]))
              && (forall k :: j <= k < |s| ==> IsTrimSpace(s[k]))
    ensures |Trim(s)| == 0 || (!IsTrimSpace(Trim(s)[0]) && !IsTrimSpace(Trim(s)[|Trim(s)| - 1]))
  {
    var i := LeadingSpace(s);
    var t := s[i..];
    var n := TrailingSpace(t);
    var j := |s| - n;
    assert Trim(s) == s[i..j];
    assert forall k :: j <= k < |s| ==> IsTrimSpace(s[k]) by {
      forall k | j <= k < |s| ensures IsTrimSpace(s[k]) {
        assert s[k] == t[k - i];
      }
    }
    assert |Trim(s)| == 0 || (!IsTrimSpace(Trim(s)[0]) && !IsTrimSpace(Trim(s)[|Trim(s)| - 1])) by {
      if i < j {
        assert Trim(s)[0] == s[i];
        assert Trim(s)[|Trim(s)| - 1] == t[|t| - n - 1];
      }
    }
  }

  /** Trimming is idempotent. */
  lemma TrimIdempotent(s: string)
    ensures Trim(Trim(s)) == Trim(s)
  {
    var r := Trim(s);
    TrimSpec(s);
    if |r| > 0 {
      assert LeadingSpace(r) == 0;
      assert TrailingSpace(r) == 0;
    }
  }

  /** Surrounding a trimmed text with whitespace and trimming gives the text back. */
  lemma {:induction false} TrimPadded(pre: string, t: string, post: string)
    requires forall k :: 0 <= k < |pre| ==> IsTrimSpace(pre[k])
    requires forall k :: 0 <= k < |post| ==> IsTrimSpace(post[k])
    requires |t| == 0 || (!IsTrimSpace(t[0]) && !IsTrimSpace(t[|t| - 1]))
    ensures |t| > 0 ==> Trim(pre + t + post) == t
    ensures |t| == 0 ==> Trim(pre + t + post) == ""
  {
    var s := pre + t + post;
    assert s == pre + (t + post);
    if |t| > 0 {
      LeadingSpaceOfPadded(pre, t + post);
      assert !IsTrimSpace((t + post)[0]);
      assert LeadingSpace(s) == |pre|;
      assert s[|pre|..] == t + post;
      TrailingSpaceOfPadded(t, post);
      assert s[|pre|..|s| - |post|] == t;
    } else {
      assert forall k :: 0 <= k < |s| ==> IsTrimSpace(s[k]);
      AllSpaceLeading(s);
    }
  }

  lemma {:induction false} LeadingSpaceOfPadded(pre: string, rest: string)
    requires forall k :: 0 <= k < |pre| ==> IsTrimSpace(pre[k])
    requires |rest| == 0 || !IsTrimSpace(rest[0])
    ensures LeadingSpace(pre + rest) == |pre|
  {
    if |pre| > 0 {
      assert (pre + rest)[1..] == pre[1..] + rest;
      LeadingSpaceOfPadded(pre[1..], rest);
    } else {
      assert pre + rest == rest;
    }
  }

  lemma {:induction false} TrailingSpaceOfPadded(t: string, post: string)
    requires forall k :: 0 <= k < |post| ==> IsTrimSpace(post[k])
    requires |t| > 0 && !IsTrimSpace(t[|t| - 1])
    ensures TrailingSpace(t + post) == |post|
  {
    if |post| > 0 {
      assert (t + post)[..|t + post| - 1] == t + post[..|post| - 1];
      TrailingSpaceOfPadded(t, post[..|post| - 1]);
    } else {
      assert t + post == t;
    }
  }

  lemma {:induction false} AllSpaceLeading(s: string)
    requires forall k :: 0 <= k < |s| ==> IsTrimSpace(s[k])
    ensures LeadingSpace(s) == |s|
  {
    if |s| > 0 {
      AllSpaceLeading(s[1..]);
    }
  }
}
