/**
 C string operations the updater relies on: `strstr` (substring search),
 `snprintf("%s")` into a fixed buffer (truncation) and `strtok` (splitting
 into non-empty tokens). C strings are modelled as `string`; they never hold
 a NUL character, so `strcmp(a, b) == 0` is `a == b`.
 */
module CStrings {
  import opened Wrappers

  /** `pat` occurs in `s` starting at index `i`. */
  predicate OccursAt(s: string, pat: string, i: nat)
  {
    i + |pat| <= |s| && s[i..i + |pat|] == pat
  }

  /** An occurrence in `s[1..]` is an occurrence in `s`, one position later. */
  lemma OccursShift(s: string, pat: string, j: nat)
    requires |s| > 0
    ensures OccursAt(s, pat, j + 1) <==> OccursAt(s[1..], pat, j)
  {
    if j + 1 + |pat| <= |s| {
      assert s[j + 1..j + 1 + |pat|] == s[1..][j..j + |pat|];
    }
  }

  /** `strstr(s, pat)`: the index of the first occurrence of `pat` in `s`, or None (a null pointer). */
  function FindSub(s: string, pat: string): (r: Option<nat>)
    decreases |s|
    ensures r.Some? ==> OccursAt(s, pat, r.value)
    ensures r.Some? ==> forall j: nat :: j < r.value ==> !OccursAt(s, pat, j)
    ensures r.None? ==> forall j: nat :: !OccursAt(s, pat, j)
  {
    if |pat| > |s| then None
    else if s[..|pat|] == pat then Some(0)
    else
      var r := FindSub(s[1..], pat);
      assert forall j: nat :: OccursAt(s, pat, j + 1) <==> OccursAt(s[1..], pat, j) by {
        forall j: nat ensures OccursAt(s, pat, j + 1) <==> OccursAt(s[1..], pat, j) {
          OccursShift(s, pat, j);
        }
      }
      assert forall j: nat :: OccursAt(s, pat, j) ==> j > 0;
      match r
      case None =>
        assert forall j: nat :: !OccursAt(s, pat, j) by {
          forall j: nat ensures !OccursAt(s, pat, j) {
            if j > 0 { assert !OccursAt(s[1..], pat, j - 1); }
          }
        }
        None
      case Some(k) =>
        assert forall j: nat :: j < k + 1 ==> !OccursAt(s, pat, j) by {
          forall j: nat | j < k + 1 ensures !OccursAt(s, pat, j) {
            if j > 0 { assert !OccursAt(s[1..], pat, j - 1); }
          }
        }
        Some(k + 1)
  }

  /** `strstr(s, pat) != NULL`. */
  predicate Contains(s: string, pat: string)
  {
    FindSub(s, pat).Some?
  }

  lemma ContainsIff(s: string, pat: string)
    ensures Contains(s, pat) <==> exists i: nat :: OccursAt(s, pat, i)
  {
    if Contains(s, pat) {
      assert OccursAt(s, pat, FindSub(s, pat).value);
    }
  }

  /** `snprintf(buf, size, "%s", s)`: at most `size - 1` characters are kept. */
  function Truncate(s: string, size: nat): (r: string)
    requires size > 0
    ensures |r| <= size - 1 && r <= s
    ensures |s| < size ==> r == s
    ensures |s| >= size ==> |r| == size - 1
  {
    if |s| < size then s else s[..size - 1]
  }

  const Delim: char := '\\'

  /** The longest prefix of `s` that holds no delimiter. */
  function TokenPrefix(s: string): (t: string)
    ensures t <= s
    ensures Delim !in t
    ensures |t| < |s| ==> s[|t|] == Delim
  {
    if s == [] || s[0] == Delim then [] else [s[0]] + TokenPrefix(s[1..])
  }

  /**
   The tokens `strtok(s, "\\")` followed by `strtok(NULL, "\\")` returns, in
   order: the maximal runs of non-delimiter characters. Empty tokens are never
   produced.
   */
  function Tokens(s: string): (ts: seq<string>)
    decreases |s|
  {
    if s == [] then []
    else if s[0] == Delim then Tokens(s[1..])
    else
      var t := TokenPrefix(s);
      [t] + Tokens(s[|t|..])
  }

  /** The predicate every `strtok` token satisfies. */
  predicate IsToken(t: string)
  {
    t != [] && Delim !in t
  }

  lemma {:induction false} TokensAreTokens(s: string)
    ensures forall i :: 0 <= i < |Tokens(s)| ==> IsToken(Tokens(s)[i])
    decreases |s|
  {
    if s == [] {
    } else if s[0] == Delim {
      TokensAreTokens(s[1..]);
    } else {
      var t := TokenPrefix(s);
      TokensAreTokens(s[|t|..]);
    }
  }

  /** `s` consists of delimiters only (this includes the empty string). */
  predicate AllDelims(s: string)
  {
    forall i :: 0 <= i < |s| ==> s[i] == Delim
  }

  lemma {:induction false} TokensEmptyIff(s: string)
    ensures Tokens(s) == [] <==> AllDelims(s)
    decreases |s|
  {
    if s == [] {
    } else if s[0] == Delim {
      TokensEmptyIff(s[1..]);
      assert AllDelims(s) <==> AllDelims(s[1..]) by {
        if AllDelims(s[1..]) {
          forall i | 0 <= i < |s| ensures s[i] == Delim {
            if i > 0 { assert s[i] == s[1..][i - 1]; }
          }
        }
      }
    } else {
      assert !AllDelims(s);
    }
  }

  /**
   `t` sits at index `k` of `s` as its last token: `s == a + t + b` where `a`
   (of length `k`) is empty or ends with a delimiter and `b` is all delimiters.
   */
  predicate LastTokenAt(s: string, t: string, k: nat)
  {
    IsToken(t) && k + |t| <= |s| && s[k..k + |t|] == t &&
    (k == 0 || s[k - 1] == Delim) && AllDelims(s[k + |t|..])
  }

  ghost predicate IsLastToken(s: string, t: string)
  {
    exists k: nat :: LastTokenAt(s, t, k)
  }

  /** Dropping a leading delimiter moves the last token one place to the left. */
  lemma LastTokenAfterDelim(s: string, t: string, k: nat)
    requires |s| > 0 && s[0] == Delim
    requires LastTokenAt(s[1..], t, k)
    ensures LastTokenAt(s, t, k + 1)
  {
    assert s[k + 1..k + 1 + |t|] == s[1..][k..k + |t|];
    assert s[k + 1 + |t|..] == s[1..][k + |t|..];
  }

  /** The last token of the part after the first token is the last token of the whole. */
  lemma LastTokenAfterPrefix(s: string, t: string, u: string, k: nat)
    requires t == TokenPrefix(s) && t != []
    requires LastTokenAt(s[|t|..], u, k)
    ensures LastTokenAt(s, u, |t| + k)
  {
    var rest := s[|t|..];
    assert |t| < |s| && rest[0] == s[|t|] == Delim;
    assert rest[k] == u[0] && u[0] != Delim;
    assert k > 0;
    assert s[|t| + k..|t| + k + |u|] == rest[k..k + |u|];
    assert s[|t| + k - 1] == rest[k - 1];
    assert s[|t| + k + |u|..] == rest[k + |u|..];
  }

  /** When nothing but delimiters follows the first token, it is the last one. */
  lemma LastTokenIsPrefix(s: string, t: string)
    requires t == TokenPrefix(s) && t != []
    requires AllDelims(s[|t|..])
    ensures LastTokenAt(s, t, 0)
  {
    assert s[0..|t|] == t;
  }

  lemma {:induction false} LastTokenCharacterised(s: string)
    requires Tokens(s) != []
    ensures IsLastToken(s, Tokens(s)[|Tokens(s)| - 1])
    decreases |s|
  {
    if s[0] == Delim {
      LastTokenCharacterised(s[1..]);
      var t := Tokens(s)[|Tokens(s)| - 1];
      var k: nat :| LastTokenAt(s[1..], t, k);
      LastTokenAfterDelim(s, t, k);
    } else {
      var t := TokenPrefix(s);
      var rest := s[|t|..];
      if Tokens(rest) == [] {
        TokensEmptyIff(rest);
        LastTokenIsPrefix(s, t);
      } else {
        LastTokenCharacterised(rest);
        var u := Tokens(rest)[|Tokens(rest)| - 1];
        TokensAreTokens(rest);
        var k: nat :| LastTokenAt(rest, u, k);
        LastTokenAfterPrefix(s, t, u, k);
      }
    }
  }
}
