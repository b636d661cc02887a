/**
 * The two JavaScript string operations the credential extractor relies on:
 * `String.prototype.trim` and a `replace` with the anchored pattern
 * `/^[Bb]earer /`. Strings are sequences of Unicode scalar values.
 */
module JsString {

  /**
   * The characters `trim` removes: the ECMAScript WhiteSpace and
   * LineTerminator code points (tab, line feed, vertical tab, form feed,
   * carriage return, space, no-break space, the byte order mark and the
   * Unicode "Space_Separator" characters, line and paragraph separator).
   */
  predicate IsWhitespace(c: char)
  {
    c == '\t' || c == '\n' || c == '\U{000B}' || c == '\U{000C}' || c == '\r'
    || c == ' ' || c == '\U{00A0}' || c == '\U{1680}'
    || ('\U{2000}' <= c <= '\U{200A}')
    || c == '\U{2028}' || c == '\U{2029}' || c == '\U{202F}' || c == '\U{205F}'
    || c == '\U{3000}' || c == '\U{FEFF}'
  }

  /** Every character of `s` is whitespace. */
  predicate AllWhitespace(s: string)
  {
    forall k :: 0 <= k < |s| ==> IsWhitespace(s[k])
  }

  /** `s` neither starts nor ends with whitespace. */
  predicate IsTrimmed(s: string)
  {
    s == [] || (!IsWhitespace(s[0]) && !IsWhitespace(s[|s| - 1]))
  }

  /**
   * Reference description of trimming: `s[i..j]` is what is left of `s` once
   * its leading and trailing whitespace is gone. When `s` is all whitespace
   * every `i == j` qualifies, and all of them name the empty string.
   */
  ghost predicate TrimmedAt(s: string, i: nat, j: nat)
  {
    i <= j <= |s|
    && AllWhitespace(s[..i])
    && AllWhitespace(s[j..])
    && IsTrimmed(s[i..j])
  }

  /** Drops the leading whitespace of `s`, and nothing else. */
  function TrimStart(s: string): (r: string)
    ensures |r| <= |s| && r == s[|s| - |r|..]
    ensures AllWhitespace(s[..|s| - |r|])
    ensures r == [] || !IsWhitespace(r[0])
  {
    if |s| > 0 && IsWhitespace(s[0]) then
      var r := TrimStart(s[1..]);
      assert s[..|s| - |r|] == [s[0]] + s[1..][..|s| - 1 - |r|];
      r
    else
      s
  }

  /** Drops the trailing whitespace of `s`, and nothing else. */
  function TrimEnd(s: string): (r: string)
    ensures |r| <= |s| && r == s[..|r|]
    ensures AllWhitespace(s[|r|..])
    ensures r == [] || !IsWhitespace(r[|r| - 1])
  {
    if |s| > 0 && IsWhitespace(s[|s| - 1]) then
      var r := TrimEnd(s[..|s| - 1]);
      assert s[|r|..] == s[..|s| - 1][|r|..] + [s[|s| - 1]];
      r
    else
      s
  }

  /** A whitespace-free-at-the-front suffix `t` of `s`, cut back to a prefix `r` that does not end in whitespace, is `s` trimmed. */
  lemma SuffixThenPrefix(s: string, t: string, r: string)
    requires |t| <= |s| && t == s[|s| - |t|..] && AllWhitespace(s[..|s| - |t|])
    requires t == [] || !IsWhitespace(t[0])
    requires |r| <= |t| && r == t[..|r|] && AllWhitespace(t[|r|..])
    requires r == [] || !IsWhitespace(r[|r| - 1])
    ensures TrimmedAt(s, |s| - |t|, |s| - |t| + |r|)
    ensures r == s[|s| - |t|..|s| - |t| + |r|]
  {
    var i := |s| - |t|;
    var j := i + |r|;
    assert s[j..] == t[|r|..];
    if r != [] {
      assert r[0] == t[0];
    }
  }

  /** JavaScript's `s.trim()`: whitespace removed at both ends. */
  function Trim(s: string): (r: string)
    ensures exists i: nat, j: nat :: TrimmedAt(s, i, j) && r == s[i..j]
  {
    var t := TrimStart(s);
    var r := TrimEnd(t);
    SuffixThenPrefix(s, t, r);
    r
  }

  /** No whitespace prefix of `s` reaches past a non-whitespace character at `i`. */
  lemma FirstSolidAt(s: string, i: nat, n: nat)
    requires n <= |s| && AllWhitespace(s[..n])
    requires i < |s| && !IsWhitespace(s[i])
    ensures n <= i
  {
  }

  /** No whitespace suffix of `s` reaches before a non-whitespace character at `j - 1`. */
  lemma LastSolidAt(s: string, j: nat, n: nat)
    requires n <= |s| && AllWhitespace(s[n..])
    requires 0 < j <= |s| && !IsWhitespace(s[j - 1])
    ensures j <= n
  {
  }

  /** Two descriptions of the trimmed middle of `s` name the same string. */
  lemma TrimmedAtSame(s: string, i: nat, j: nat, i': nat, j': nat)
    requires TrimmedAt(s, i, j) && TrimmedAt(s, i', j')
    ensures s[i..j] == s[i'..j']
  {
    if i < j {
      assert s[i..j][0] == s[i] && s[i..j][j - i - 1] == s[j - 1];
      FirstSolidAt(s, i, i');
      LastSolidAt(s, j, j');
      assert s[i'..j'][0] == s[i'] && s[i'..j'][j' - i' - 1] == s[j' - 1];
      FirstSolidAt(s, i', i);
      LastSolidAt(s, j', j);
    } else if i' < j' {
      assert s[i'..j'][0] == s[i'] && s[i'..j'][j' - i' - 1] == s[j' - 1];
      FirstSolidAt(s, i', i);
      LastSolidAt(s, j', j);
    }
  }

  /**
   * The reference description determines the result: whatever `i` and `j`
   * satisfy it, `Trim(s)` is `s[i..j]`.
   */
  lemma {:induction false} TrimUnique(s: string, i: nat, j: nat)
    requires TrimmedAt(s, i, j)
    ensures Trim(s) == s[i..j]
  {
    var r := Trim(s);
    var i': nat, j': nat :| TrimmedAt(s, i', j') && r == s[i'..j'];
    TrimmedAtSame(s, i, j, i', j');
  }

  /** Trimming twice is trimming once. */
  lemma {:induction false} TrimIdempotent(s: string)
    ensures Trim(Trim(s)) == Trim(s)
  {
    var t := Trim(s);
    assert t[..0] == [] && t[|t|..] == [];
    assert t[0..|t|] == t;
    TrimUnique(t, 0, |t|);
  }

  /** Padding a trimmed string with whitespace on either side and trimming it back gives the string. */
  lemma {:induction false} TrimPadded(lead: string, t: string, trail: string)
    requires AllWhitespace(lead) && AllWhitespace(trail) && IsTrimmed(t)
    ensures Trim(lead + t + trail) == t
  {
    var s := lead + t + trail;
    var i, j := |lead|, |lead| + |t|;
    assert s[..i] == lead;
    assert s[j..] == trail;
    assert s[i..j] == t;
    TrimUnique(s, i, j);
  }

  /** The pattern `/^[Bb]earer /`: the exact text `Bearer ` or `bearer ` at the very start. */
  predicate HasBearerPrefix(h: string)
  {
    |h| >= 7 && (h[..7] == "Bearer " || h[..7] == "bearer ")
  }

  /**
   * `h.replace(/^[Bb]earer /, "")`: one leading `Bearer ` or `bearer ` is
   * removed, and any other string is returned as it is.
   */
  function StripBearer(h: string): (r: string)
    ensures HasBearerPrefix(h) ==> h == h[..7] + r
    ensures !HasBearerPrefix(h) ==> r == h
  {
    if HasBearerPrefix(h) then h[7..] else h
  }
}
