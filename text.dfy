/**
 * The .NET string operations the variable store relies on, with ordinal
 * (culture-free) semantics: `Trim('"')`, `Split(char)`, `IndexOf(char)` and
 * `StartsWith(string)`.
 */
module Text {

  /** The position of the first occurrence of `c` in `s` (`s.IndexOf(c)` when it is found). */
  function IndexOf(s: string, c: char): (i: nat)
    requires c in s
    ensures i < |s| && s[i] == c
    ensures c !in s[..i]
  {
    if s[0] == c then 0 else
      var i := 1 + IndexOf(s[1..], c);
      assert s[1..][..i - 1] == s[1..i];
      assert s[..i] == [s[0]] + s[1..i];
      i
  }

  /** An occurrence of `c` with none before it is the one `IndexOf` finds. */
  lemma {:induction false} IndexOfFirst(s: string, c: char, k: nat)
    requires k < |s| && s[k] == c && c !in s[..k]
    ensures IndexOf(s, c) == k
  {
    if k > 0 {
      assert s[0] == s[..k][0];
      assert s[1..][..k - 1] == s[..k][1..];
      IndexOfFirst(s[1..], c, k - 1);
    }
  }

  /** The end of the run of double quotes that starts at `i`: the forward scan of `Trim('"')`. */
  function QuoteRunEnd(s: string, i: nat): (n: nat)
    requires i <= |s|
    ensures i <= n <= |s|
    ensures forall k :: i <= k < n ==> s[k] == '"'
    ensures n == |s| || s[n] != '"'
    decreases |s| - i
  {
    if i < |s| && s[i] == '"' then QuoteRunEnd(s, i + 1) else i
  }

  /**
   * The start of the run of double quotes that ends at `j`, going back no
   * further than `lo`: the backward scan of `Trim('"')`.
   */
  function QuoteRunStart(s: string, lo: nat, j: nat): (n: nat)
    requires lo <= j <= |s|
    ensures lo <= n <= j
    ensures forall k :: n <= k < j ==> s[k] == '"'
    ensures n == lo || s[n - 1] != '"'
  {
    if lo < j && s[j - 1] == '"' then QuoteRunStart(s, lo, j - 1) else j
  }

  /**
   * `s.Trim('"')`: every leading and every trailing double quote removed.
   * The result is the slice of `s` between a run of quotes at the front and
   * a run of quotes at the back, and it neither starts nor ends with one.
   */
  function TrimQuotes(s: string): (r: string)
    ensures r == [] || (r[0] != '"' && r[|r| - 1] != '"')
  {
    var i := QuoteRunEnd(s, 0);
    s[i..QuoteRunStart(s, i, |s|)]
  }

  /** A text with no double quote at either end is left as it is. */
  lemma TrimQuotesUnquoted(s: string)
    ensures (s == [] || (s[0] != '"' && s[|s| - 1] != '"')) ==> TrimQuotes(s) == s
  {
    if s == [] || (s[0] != '"' && s[|s| - 1] != '"') {
      assert QuoteRunEnd(s, 0) == 0;
      assert QuoteRunStart(s, 0, |s|) == |s|;
      assert s[0..|s|] == s;
    }
  }

  /** What `TrimQuotes` keeps is a slice of `s`, and only double quotes are cut from either end. */
  lemma TrimQuotesSlice(s: string)
    ensures var i := QuoteRunEnd(s, 0);
            var j := i + |TrimQuotes(s)|;
            && j <= |s|
            && TrimQuotes(s) == s[i..j]
            && (forall k :: 0 <= k < i ==> s[k] == '"')
            && (forall k :: j <= k < |s| ==> s[k] == '"')
  {
  }

  /** Trimming is idempotent: a trimmed string has nothing left to trim. */
  lemma TrimQuotesIdempotent(s: string)
    ensures TrimQuotes(TrimQuotes(s)) == TrimQuotes(s)
  {
    TrimQuotesUnquoted(TrimQuotes(s));
  }

  /**
   * `s.Split(sep)`: the pieces of `s` between occurrences of `sep`, empty
   * pieces included, so there is always one more piece than separators.
   */
  function Split(s: string, sep: char): (parts: seq<string>)
    ensures |parts| >= 1
    ensures forall p :: p in parts ==> sep !in p
    ensures Join(parts, sep) == s
    decreases |s|
  {
    if sep !in s then [s]
    else
      var i := IndexOf(s, sep);
      var rest := Split(s[i + 1..], sep);
      assert s == s[..i] + [sep] + s[i + 1..];
      [s[..i]] + rest
  }

  /** The inverse of `Split`: the pieces glued back together with `sep` between them. */
  function Join(parts: seq<string>, sep: char): string
    requires |parts| >= 1
  {
    if |parts| == 1 then parts[0] else parts[0] + [sep] + Join(parts[1..], sep)
  }

  /** `Split` yields a second piece exactly when the separator occurs. */
  lemma SplitHasSecondPiece(s: string, sep: char)
    ensures |Split(s, sep)| >= 2 <==> sep in s
  {
  }

  /** The second piece of `s.Split(sep)` runs from just after the first separator to the next one, or to the end. */
  lemma SecondPiece(s: string, sep: char)
    requires sep in s
    ensures var rest := s[IndexOf(s, sep) + 1..];
      Split(s, sep)[1] == if sep in rest then rest[..IndexOf(rest, sep)] else rest
  {
  }

  /** `s.StartsWith(prefix)`, ordinal comparison: character by character, no longer than `s`. */
  predicate StartsWith(s: string, prefix: string)
    ensures StartsWith(s, prefix) <==> |prefix| <= |s| && forall k :: 0 <= k < |prefix| ==> s[k] == prefix[k]
  {
    prefix <= s
  }

  /**
   * A prefix of the first `sep`-free piece of `rest` is a prefix of `rest`
   * with no `sep` in it, and the other way round.
   */
  lemma PrefixOfFirstPiece(rest: string, sep: char, prefix: string)
    ensures var piece := if sep in rest then rest[..IndexOf(rest, sep)] else rest;
            StartsWith(piece, prefix) <==> StartsWith(rest, prefix) && sep !in prefix
  {
    if sep in rest {
      var j := IndexOf(rest, sep);
      if StartsWith(rest, prefix) && sep !in prefix {
        assert |prefix| <= j;
        assert rest[..j][..|prefix|] == prefix;
      }
      if StartsWith(rest[..j], prefix) {
        assert prefix == rest[..j][..|prefix|];
        assert rest[..|prefix|] == prefix;
      }
    } else if StartsWith(rest, prefix) {
      assert forall k :: 0 <= k < |prefix| ==> prefix[k] == rest[k];
    }
  }
}
