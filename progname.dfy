/**
 The program name printed in the usage text (src/main.cpp:261-271): argv[0]
 is split with `strtok` on backslashes and the last token is kept; when
 argv[0] holds no token at all the name stays a null pointer.
 */
module ProgName {
  import opened Wrappers
  import opened CStrings

  function LastOf(ts: seq<string>): Option<string>
  {
    if ts == [] then None else Some(ts[|ts| - 1])
  }

  lemma TokensSkipDelim(s: string, pos: nat)
    requires pos < |s| && s[pos] == Delim
    ensures Tokens(s[pos..]) == Tokens(s[pos + 1..])
  {
    assert s[pos..][1..] == s[pos + 1..];
  }

  /** A run of non-delimiters ended by a delimiter or the end of `s` is the token prefix. */
  lemma {:induction false} TokenPrefixRun(s: string, pos: nat, end: nat)
    requires pos <= end <= |s|
    requires forall k :: pos <= k < end ==> s[k] != Delim
    requires end == |s| || s[end] == Delim
    ensures TokenPrefix(s[pos..]) == s[pos..end]
    decreases end - pos
  {
    if pos < end {
      TokenPrefixRun(s, pos + 1, end);
      assert s[pos..][1..] == s[pos + 1..];
      assert s[pos..end] == [s[pos]] + s[pos + 1..end];
    }
  }

  lemma TokensAtToken(s: string, pos: nat, end: nat)
    requires pos < end <= |s| && TokenPrefix(s[pos..]) == s[pos..end]
    ensures Tokens(s[pos..]) == [s[pos..end]] + Tokens(s[end..])
  {
    assert s[pos..][end - pos..] == s[end..];
  }

  /** One pass of the outer loop: the token found at `pos` joins the tokens seen so far. */
  lemma TokenStep(s: string, seen: seq<string>, pos: nat, end: nat)
    requires pos < end <= |s|
    requires forall k :: pos <= k < end ==> s[k] != Delim
    requires end == |s| || s[end] == Delim
    requires Tokens(s) == seen + Tokens(s[pos..])
    ensures Tokens(s) == (seen + [s[pos..end]]) + Tokens(s[end..])
  {
    TokenPrefixRun(s, pos, end);
    TokensAtToken(s, pos, end);
  }

  /** Once every token has been seen, the last of them is the program name. */
  lemma NameFromTokens(s: string, seen: seq<string>)
    requires Tokens(s) == seen + Tokens(s[|s|..])
    ensures LastOf(seen) == LastOf(Tokens(s))
    ensures LastOf(seen).None? <==> AllDelims(s)
    ensures LastOf(seen).Some? ==> IsLastToken(s, LastOf(seen).value)
  {
    assert s[|s|..] == [];
    TokensEmptyIff(s);
    if LastOf(seen).Some? {
      LastTokenCharacterised(s);
    }
  }

  /** The `strtok` loop of `main` that keeps the last token it returns in `lstk`. */
  method ProgramName(argv0: string) returns (me: Option<string>)
    ensures me == LastOf(Tokens(argv0))
    ensures me.None? <==> AllDelims(argv0)
    ensures me.Some? ==> IsLastToken(argv0, me.value)
  {
    var pos := 0;  // where the next strtok call resumes
    var lstk: Option<string> := None;
    ghost var seen: seq<string> := [];
    assert argv0[0..] == argv0;
    while true
      invariant 0 <= pos <= |argv0|
      invariant Tokens(argv0) == seen + Tokens(argv0[pos..])
      invariant lstk == LastOf(seen)
      decreases |argv0| - pos
    {
      // strtok skips the delimiters before a token
      while pos < |argv0| && argv0[pos] == Delim
        invariant 0 <= pos <= |argv0|
        invariant Tokens(argv0) == seen + Tokens(argv0[pos..])
      {
        TokensSkipDelim(argv0, pos);
        pos := pos + 1;
      }
      if pos == |argv0| {
        break;
      }
      // ... and ends the token at the next delimiter or at the end of the string
      var end := pos;
      while end < |argv0| && argv0[end] != Delim
        invariant pos <= end <= |argv0|
        invariant forall k :: pos <= k < end ==> argv0[k] != Delim
      {
        end := end + 1;
      }
      var tok := argv0[pos..end];
      TokenStep(argv0, seen, pos, end);
      lstk := Some(tok);
      seen := seen + [tok];
      pos := end;
    }
    me := lstk;
    NameFromTokens(argv0, seen);
  }
}
