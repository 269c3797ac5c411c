/**
 * DecodeIFCString: the importer's decoder for the `\S\` escapes of
 * ISO 10303-21 strings. Seven fixed passes, each a leftmost find-and-replace
 * loop that turns one 4-byte token into a 2-byte UTF-8 letter.
 *
 * The table is the importer's own: it maps `\S\c` and `\S\C` to ö and Ö,
 * where clause 6.4.3 of ISO 10303-21 (add 0x80 to the next character)
 * would give ã and Ã. The model follows the importer.
 */
module IfcString {
  import opened Common

  const NumPasses: nat := 7

  /** The escape character of each pass, in the order the passes run. */
  function Code(k: nat): char
    requires k < NumPasses
  {
    ['d', '|', '_', 'c', 'D', '\\', 'C'][k]
  }

  /** Second UTF-8 byte of ä ü ß ö Ä Ü Ö; the first byte is 0xC3 for all seven. */
  function LetterLow(k: nat): int
    requires k < NumPasses
  {
    [0xA4, 0xBC, 0x9F, 0xB6, 0x84, 0x9C, 0x96][k]
  }

  function Token(k: nat): (t: string)
    requires k < NumPasses
    ensures |t| == 4 && t[0] == '\\'
    ensures forall i :: 0 <= i < 4 ==> t[i] as int < 0x80
  {
    ['\\', 'S', '\\', Code(k)]
  }

  function Letter(k: nat): (l: string)
    requires k < NumPasses
    ensures |l| == 2
    ensures forall i :: 0 <= i < 2 ==> l[i] as int >= 0x80
  {
    [0xC3 as char, LetterLow(k) as char]
  }

  /** No character of `rep` occurs in `tok`. */
  predicate Disjoint(tok: string, rep: string) {
    forall i, j :: 0 <= i < |rep| && 0 <= j < |tok| ==> rep[i] != tok[j]
  }

  lemma LettersAreNotTokenBytes(k: nat, j: nat)
    requires k < NumPasses && j < NumPasses
    ensures Disjoint(Token(j), Letter(k))
  {
  }

  /** Every non-overlapping occurrence of `tok`, left to right, replaced by `rep`. */
  function ReplaceAll(s: string, tok: string, rep: string): string
    requires |tok| > 0
    decreases |s|
  {
    if |s| < |tok| then s
    else if s[..|tok|] == tok then rep + ReplaceAll(s[|tok|..], tok, rep)
    else [s[0]] + ReplaceAll(s[1..], tok, rep)
  }

  /** The first `n` passes of the decoder. */
  function DecodePasses(s: string, n: nat): string
    requires n <= NumPasses
  {
    if n == 0 then s else ReplaceAll(DecodePasses(s, n - 1), Token(n - 1), Letter(n - 1))
  }

  /** The whole decoder, as a function. */
  function Decode(s: string): string {
    DecodePasses(s, NumPasses)
  }

  /** A prefix holding no occurrence is copied unchanged. */
  lemma {:induction false} SkipNoMatch(s: string, tok: string, rep: string, k: nat)
    requires |tok| > 0 && k <= |s|
    requires forall j :: 0 <= j < k ==> !OccursAt(s, tok, j)
    ensures ReplaceAll(s, tok, rep) == s[..k] + ReplaceAll(s[k..], tok, rep)
    decreases k
  {
    if k == 0 {
      assert s[k..] == s;
    } else if |s| < |tok| {
      assert ReplaceAll(s[k..], tok, rep) == s[k..];
      assert s[..k] + s[k..] == s;
    } else {
      assert s[..|tok|] != tok by { assert !OccursAt(s, tok, 0); }
      var t := s[1..];
      forall j | 0 <= j < k - 1 ensures !OccursAt(t, tok, j) {
        OccursAtDrop(s, tok, 1, j);
        assert !OccursAt(s, tok, 1 + j);
      }
      SkipNoMatch(t, tok, rep, k - 1);
      assert ReplaceAll(s, tok, rep) == [s[0]] + ReplaceAll(t, tok, rep);
      ConsSplit(s, k, ReplaceAll(s[k..], tok, rep));
    }
  }

  lemma ConsSplit(s: string, k: nat, x: string)
    requires 0 < k <= |s|
    ensures s[1..][k - 1..] == s[k..]
    ensures [s[0]] + (s[1..][..k - 1] + x) == s[..k] + x
  {
    assert s[..k] == [s[0]] + s[1..][..k - 1];
  }

  /** A string holding no occurrence is left unchanged. */
  lemma NoMatchUnchanged(s: string, tok: string, rep: string)
    requires |tok| > 0
    requires forall j :: !OccursAt(s, tok, j)
    ensures ReplaceAll(s, tok, rep) == s
  {
    SkipNoMatch(s, tok, rep, |s|);
    assert s[..|s|] == s;
    assert ReplaceAll(s[|s|..], tok, rep) == [];
  }

  /** A replacement whose first character is not `tok[0]` does not start an occurrence. */
  lemma ReplaceAfterForeignChar(c: char, t: string, tok: string, rep: string)
    requires |tok| > 0 && c != tok[0]
    ensures ReplaceAll([c] + t, tok, rep) == [c] + ReplaceAll(t, tok, rep)
  {
    var s := [c] + t;
    assert s[1..] == t;
    if |s| < |tok| {
      assert ReplaceAll(t, tok, rep) == t;
    } else {
      assert s[..|tok|][0] == c;
    }
  }

  /**
   * Replacing `tok` creates no occurrence of `pat` that was not there: the
   * characters of `rep` never occur in `pat`, so an occurrence cannot touch
   * a replacement, and everything else is copied in order. With `pat == tok`
   * this says a pass leaves no occurrence of its own token behind.
   */
  lemma {:induction false} NoNewOccurrence(s: string, tok: string, rep: string, pat: string)
    requires |tok| > 0 && |rep| > 0 && |pat| > 0
    requires Disjoint(pat, rep)
    requires pat == tok || forall j :: !OccursAt(s, pat, j)
    ensures forall i :: !OccursAt(ReplaceAll(s, tok, rep), pat, i)
    decreases |s|
  {
    var out := ReplaceAll(s, tok, rep);
    if |s| < |tok| {
    } else if s[..|tok|] == tok {
      var rest := s[|tok|..];
      if pat != tok {
        forall j: nat ensures !OccursAt(rest, pat, j) {
          OccursAtDrop(s, pat, |tok|, j);
        }
      }
      NoNewOccurrence(rest, tok, rep, pat);
      var r := ReplaceAll(rest, tok, rep);
      assert out == rep + r;
      forall i: nat ensures !OccursAt(out, pat, i) {
        if i + |pat| <= |out| {
          if i < |rep| {
            assert out[i..i + |pat|][0] == rep[i];
          } else {
            var i' := i - |rep|;
            assert out[i..i + |pat|] == r[i'..i' + |pat|];
            assert !OccursAt(r, pat, i');
          }
        }
      }
    } else {
      var s1 := s[1..];
      if pat != tok {
        forall j: nat ensures !OccursAt(s1, pat, j) {
          OccursAtDrop(s, pat, 1, j);
        }
      }
      NoNewOccurrence(s1, tok, rep, pat);
      var r := ReplaceAll(s1, tok, rep);
      assert out == [s[0]] + r;
      forall i: nat ensures !OccursAt(out, pat, i) {
        if i == 0 {
          FirstCharsCopied(s, tok, rep, pat);
        } else if i + |pat| <= |out| {
          var i' := i - 1;
          assert out[i..i + |pat|] == r[i'..i' + |pat|];
          assert !OccursAt(r, pat, i');
        }
      }
    }
  }

  /** At a match, the token is replaced and the scan resumes after it. */
  lemma ReplaceAtMatch(s: string, tok: string, rep: string)
    requires |tok| > 0 && OccursAt(s, tok, 0)
    ensures ReplaceAll(s, tok, rep) == rep + ReplaceAll(s[|tok|..], tok, rep)
  {
  }

  /** The first occurrence of `tok` in `s1` becomes the first character of `rep`. */
  lemma MatchAhead(s1: string, tok: string, rep: string, j: nat)
    requires |tok| > 0 && |rep| > 0
    requires FindFrom(s1, tok, 0) == Some(j)
    ensures j < |ReplaceAll(s1, tok, rep)| && ReplaceAll(s1, tok, rep)[j] == rep[0]
  {
    SkipNoMatch(s1, tok, rep, j);
    OccursAtDrop(s1, tok, j, 0);
    ReplaceAtMatch(s1[j..], tok, rep);
  }

  /** Before the first occurrence of `tok`, the output copies `s1`. */
  lemma CopiedAhead(s1: string, tok: string, rep: string, m: nat)
    requires |tok| > 0 && m <= |s1|
    requires forall j :: 0 <= j < m ==> !OccursAt(s1, tok, j)
    ensures |ReplaceAll(s1, tok, rep)| >= m && ReplaceAll(s1, tok, rep)[..m] == s1[..m]
    ensures m == |s1| ==> ReplaceAll(s1, tok, rep) == s1
  {
    SkipNoMatch(s1, tok, rep, m);
    if m == |s1| {
      assert s1[m..] == [];
      assert s1[..m] == s1;
    }
  }

  /**
   * Helper of NoNewOccurrence: when the first character is copied, the output
   * does not start with `pat`. Its first |pat| characters are either copied
   * from `s` or reach into a replacement.
   */
  lemma FirstCharsCopied(s: string, tok: string, rep: string, pat: string)
    requires |tok| > 0 && |rep| > 0 && |pat| > 0 && |s| >= |tok|
    requires Disjoint(pat, rep)
    requires s[..|tok|] != tok
    requires pat == tok || forall j :: !OccursAt(s, pat, j)
    ensures !OccursAt([s[0]] + ReplaceAll(s[1..], tok, rep), pat, 0)
  {
    var s1 := s[1..];
    var r := ReplaceAll(s1, tok, rep);
    var m := |pat| - 1;
    var f := FindFrom(s1, tok, 0);
    if f.Some? && f.value < m {
      MatchAhead(s1, tok, rep, f.value);
      ReplacementAhead([s[0]] + r, pat, rep, f.value + 1);
    } else if m <= |s1| {
      CopiedAhead(s1, tok, rep, m);
      assert !OccursAt(s, pat, 0) by {
        if pat == tok {
          assert s[0..|tok|] == s[..|tok|];
        }
      }
      CopiedStart(s, r, pat);
    } else {
      CopiedAhead(s1, tok, rep, |s1|);
      assert |[s[0]] + r| < |pat|;
    }
  }

  /** An output with a replacement character at position `k` inside the first |pat| does not start with `pat`. */
  lemma ReplacementAhead(out: string, pat: string, rep: string, k: nat)
    requires |rep| > 0 && Disjoint(pat, rep) && k < |pat| && k < |out| && out[k] == rep[0]
    ensures !OccursAt(out, pat, 0)
  {
    if |pat| <= |out| {
      assert out[..|pat|][k] == out[k];
    }
  }

  /** An output whose first |pat| characters are those of `s` starts with `pat` only if `s` does. */
  lemma CopiedStart(s: string, r: string, pat: string)
    requires 0 < |pat| <= |s| && |pat| - 1 <= |r| && r[..|pat| - 1] == s[1..][..|pat| - 1]
    requires !OccursAt(s, pat, 0)
    ensures !OccursAt([s[0]] + r, pat, 0)
  {
    var out := [s[0]] + r;
    assert out[..|pat|] == [s[0]] + r[..|pat| - 1] == s[..|pat|];
  }

  /** After the first `n` passes none of their tokens remains. */
  lemma {:induction false} PassesRemoveTokens(s: string, n: nat)
    requires n <= NumPasses
    ensures forall k, i :: 0 <= k < n ==> !OccursAt(DecodePasses(s, n), Token(k), i)
  {
    if n > 0 {
      PassesRemoveTokens(s, n - 1);
      var before := DecodePasses(s, n - 1);
      forall k | 0 <= k < n ensures forall i :: !OccursAt(DecodePasses(s, n), Token(k), i) {
        LettersAreNotTokenBytes(n - 1, k);
        NoNewOccurrence(before, Token(n - 1), Letter(n - 1), Token(k));
      }
    }
  }

  /** After decoding, none of the seven tokens remains. */
  lemma DecodeRemovesAllTokens(s: string)
    ensures forall k :: 0 <= k < NumPasses ==> !Contains(Decode(s), Token(k))
  {
    PassesRemoveTokens(s, NumPasses);
    forall k | 0 <= k < NumPasses ensures !Contains(Decode(s), Token(k)) {
      ContainsIff(Decode(s), Token(k));
    }
  }

  /** A string holding none of the seven tokens is returned unchanged. */
  lemma {:induction false} TokenFreeUnchanged(s: string, n: nat)
    requires n <= NumPasses
    requires forall k :: 0 <= k < NumPasses ==> !Contains(s, Token(k))
    ensures DecodePasses(s, n) == s
  {
    if n > 0 {
      TokenFreeUnchanged(s, n - 1);
      ContainsIff(s, Token(n - 1));
      NoMatchUnchanged(s, Token(n - 1), Letter(n - 1));
    }
  }

  /** A string without a backslash holds no escape token and decodes to itself. */
  lemma PlainDecoded(s: string)
    requires forall i :: 0 <= i < |s| ==> s[i] != '\\'
    ensures Decode(s) == s
  {
    forall k | 0 <= k < NumPasses
      ensures !Contains(s, Token(k))
    {
      forall j: nat
        ensures !OccursAt(s, Token(k), j)
      {
        if j + 4 <= |s| {
          assert s[j..j + 4][0] == s[j] != Token(k)[0];
        }
      }
      ContainsIff(s, Token(k));
    }
    TokenFreeUnchanged(s, NumPasses);
  }

  /** Decoding twice is decoding once. */
  lemma DecodeIdempotent(s: string)
    ensures Decode(Decode(s)) == Decode(s)
  {
    DecodeRemovesAllTokens(s);
    TokenFreeUnchanged(Decode(s), NumPasses);
  }

  predicate NoBackslash(s: string) {
    forall i :: 0 <= i < |s| ==> s[i] != '\\'
  }

  lemma NoBackslashNoToken(s: string, k: nat)
    requires k < NumPasses && NoBackslash(s)
    ensures forall j :: !OccursAt(s, Token(k), j)
  {
    forall j: nat ensures !OccursAt(s, Token(k), j) {
      if j + 4 <= |s| {
        assert s[j..j + 4][0] == s[j];
      }
    }
  }

  /** In `a + Token(k) + b` no other token occurs: every other window misses a backslash or the code. */
  lemma OtherTokensAbsent(a: string, k: nat, b: string, j: nat)
    requires k < NumPasses && j < NumPasses && j != k
    requires NoBackslash(a) && NoBackslash(b)
    ensures forall i :: !OccursAt(a + Token(k) + b, Token(j), i)
  {
    var s := a + Token(k) + b;
    var t := Token(j);
    forall i: nat | i + 4 <= |s| ensures !OccursAt(s, t, i) {
      var w := s[i..i + 4];
      assert forall x :: 0 <= x < 4 ==> w[x] == s[i + x];
      if i < |a| {
        assert s[i] == a[i];
        assert w[0] != t[0];
      } else if i == |a| {
        assert s[i + 3] == Token(k)[3] == Code(k);
        assert w[3] != t[3];
      } else if i == |a| + 1 {
        assert s[i] == Token(k)[1] == 'S';
        assert w[0] != t[0];
      } else if i == |a| + 2 {
        assert s[i + 1] == Token(k)[3] == Code(k);
        assert w[1] != t[1];
      } else if i == |a| + 3 {
        assert s[i + 2] == b[1];
        assert w[2] != t[2];
      } else {
        assert s[i] == b[i - |a| - 4];
        assert w[0] != t[0];
      }
    }
  }

  /** Each token turns into its letter: ä ü ß ö Ä Ü Ö for d | _ c D \ C. */
  lemma {:induction false} DecodeOneEscape(a: string, k: nat, b: string, n: nat)
    requires k < NumPasses && n <= NumPasses
    requires NoBackslash(a) && NoBackslash(b)
    ensures DecodePasses(a + Token(k) + b, n) == if n <= k then a + Token(k) + b else a + Letter(k) + b
  {
    if n > 0 {
      DecodeOneEscape(a, k, b, n - 1);
      if n - 1 < k {
        OtherTokensAbsent(a, k, b, n - 1);
        NoMatchUnchanged(a + Token(k) + b, Token(n - 1), Letter(n - 1));
      } else if n - 1 == k {
        EscapeReplaced(a, k, b);
      } else {
        LetterStaysPut(a, k, b, n - 1);
      }
    }
  }

  /** The pass for token `k` turns the one token into its letter. */
  lemma EscapeReplaced(a: string, k: nat, b: string)
    requires k < NumPasses && NoBackslash(a) && NoBackslash(b)
    ensures ReplaceAll(a + Token(k) + b, Token(k), Letter(k)) == a + Letter(k) + b
  {
    var s := a + Token(k) + b;
    forall j: nat | j < |a| ensures !OccursAt(s, Token(k), j) {
      if j + 4 <= |s| {
        assert s[j..j + 4][0] == a[j];
      }
    }
    SkipNoMatch(s, Token(k), Letter(k), |a|);
    var t := Token(k) + b;
    assert s[..|a|] == a && s[|a|..] == t;
    assert t[..4] == Token(k) && t[4..] == b;
    NoBackslashNoToken(b, k);
    NoMatchUnchanged(b, Token(k), Letter(k));
  }

  /** A later pass finds no token in the decoded string. */
  lemma LetterStaysPut(a: string, k: nat, b: string, m: nat)
    requires k < NumPasses && m < NumPasses && NoBackslash(a) && NoBackslash(b)
    ensures ReplaceAll(a + Letter(k) + b, Token(m), Letter(m)) == a + Letter(k) + b
  {
    var u := a + Letter(k) + b;
    assert NoBackslash(u) by {
      forall i | 0 <= i < |u| ensures u[i] != '\\' {
        if i < |a| { assert u[i] == a[i]; }
        else if i < |a| + 2 { assert u[i] == Letter(k)[i - |a|]; }
        else { assert u[i] == b[i - |a| - 2]; }
      }
    }
    NoBackslashNoToken(u, m);
    NoMatchUnchanged(u, Token(m), Letter(m));
  }

  /** No occurrence lies between `pos` and the next one that find reports. */
  lemma NoneBeforeFound(result: string, tok: string, pos: nat, p: nat)
    requires pos <= |result| && FindFrom(result, tok, pos) == Some(p)
    ensures pos <= p
    ensures forall j :: 0 <= j < p - pos ==> !OccursAt(result[pos..], tok, j)
  {
    forall j: nat | j < p - pos ensures !OccursAt(result[pos..], tok, j) {
      OccursAtDrop(result, tok, pos, j);
    }
  }

  /** Skipping from `pos` to the next occurrence `p` copies the characters in between. */
  lemma PassSkip(result: string, tok: string, rep: string, pos: nat, p: nat)
    requires |tok| > 0 && pos <= p <= |result|
    requires forall j :: 0 <= j < p - pos ==> !OccursAt(result[pos..], tok, j)
    ensures result[..pos] + ReplaceAll(result[pos..], tok, rep)
         == result[..p] + ReplaceAll(result[p..], tok, rep)
  {
    var t := result[pos..];
    SkipNoMatch(t, tok, rep, p - pos);
    assert t[..p - pos] == result[pos..p];
    assert t[p - pos..] == result[p..];
    assert result[..pos] + result[pos..p] == result[..p];
  }

  /**
   * After splicing a 2-character replacement at `|pre|` and resuming one
   * character into it, the pending output is `pre + rep` followed by the
   * replaced rest, because the second character cannot start an occurrence.
   */
  lemma SpliceResume(pre: string, rep: string, post: string, tok: string)
    requires |rep| == 2 && |tok| > 0 && rep[1] != tok[0]
    ensures (pre + rep + post)[..|pre| + 1] + ReplaceAll((pre + rep + post)[|pre| + 1..], tok, rep)
         == pre + (rep + ReplaceAll(post, tok, rep))
  {
    var next := pre + rep + post;
    assert next[..|pre| + 1] == pre + [rep[0]];
    assert next[|pre| + 1..] == [rep[1]] + post;
    ReplaceAfterForeignChar(rep[1], post, tok, rep);
    assert rep == [rep[0]] + [rep[1]];
  }

  /** At a found occurrence `p`, the scan replaces it and resumes after it. */
  lemma ReplaceFound(result: string, tok: string, rep: string, p: nat)
    requires |tok| == 4 && p + 4 <= |result| && OccursAt(result, tok, p)
    ensures ReplaceAll(result[p..], tok, rep) == rep + ReplaceAll(result[p + 4..], tok, rep)
  {
    var u := result[p..];
    OccursAtDrop(result, tok, p, 0);
    ReplaceAtMatch(u, tok, rep);
    assert u[4..] == result[p + 4..];
  }

  /** One replacement of the pass keeps the pending output unchanged. */
  lemma PassStep(result: string, tok: string, rep: string, pos: nat, p: nat)
    requires |tok| == 4 && |rep| == 2 && Disjoint(tok, rep)
    requires pos <= |result| && FindFrom(result, tok, pos) == Some(p)
    ensures p + 4 <= |result|
    ensures result[..pos] + ReplaceAll(result[pos..], tok, rep)
         == (result[..p] + rep + result[p + 4..])[..p + 1]
            + ReplaceAll((result[..p] + rep + result[p + 4..])[p + 1..], tok, rep)
  {
    NoneBeforeFound(result, tok, pos, p);
    PassSkip(result, tok, rep, pos, p);
    ReplaceFound(result, tok, rep, p);
    assert rep[1] != tok[0];
    SpliceResume(result[..p], rep, result[p + 4..], tok);
  }

  /** When no occurrence is left after `pos`, the pending output is the string itself. */
  lemma PassEnd(result: string, tok: string, rep: string, pos: nat)
    requires |tok| == 4 && pos <= |result| && FindFrom(result, tok, pos).None?
    ensures result[..pos] + ReplaceAll(result[pos..], tok, rep) == result
  {
    forall j: nat ensures !OccursAt(result[pos..], tok, j) {
      OccursAtDrop(result, tok, pos, j);
    }
    NoMatchUnchanged(result[pos..], tok, rep);
    assert result[..pos] + result[pos..] == result;
  }

  /** One pass as the importer runs it: find from `pos`, replace 4 bytes, resume one byte later. */
  method ReplacePass(input: string, tok: string, rep: string) returns (result: string)
    requires |tok| == 4 && |rep| == 2 && Disjoint(tok, rep)
    ensures result == ReplaceAll(input, tok, rep)
  {
    result := input;
    var pos: nat := 0;
    var found := FindFrom(result, tok, pos);
    while found.Some?
      invariant pos <= |result|
      invariant found == FindFrom(result, tok, pos)
      invariant ReplaceAll(input, tok, rep) == result[..pos] + ReplaceAll(result[pos..], tok, rep)
      decreases |result| - pos
    {
      var p := found.value;
      PassStep(result, tok, rep, pos, p);
      result := result[..p] + rep + result[p + 4..];
      pos := p + 1;
      found := FindFrom(result, tok, pos);
    }
    PassEnd(result, tok, rep, pos);
  }

  /** The seven tokens as the importer spells them. */
  lemma TokenSpelling()
    ensures Token(0) == "\\S\\d" && Token(1) == "\\S\\|" && Token(2) == "\\S\\_" && Token(3) == "\\S\\c"
    ensures Token(4) == "\\S\\D" && Token(5) == "\\S\\\\" && Token(6) == "\\S\\C"
  {
  }

  /** One more pass of the decoder. */
  lemma PassUnfold(s: string, n: nat)
    requires 0 < n <= NumPasses
    ensures DecodePasses(s, n) == ReplaceAll(DecodePasses(s, n - 1), Token(n - 1), Letter(n - 1))
    ensures Disjoint(Token(n - 1), Letter(n - 1))
  {
    LettersAreNotTokenBytes(n - 1, n - 1);
  }

  /** DecodeIFCString: the seven passes in the importer's order. */
  method DecodeIFCString(input: string) returns (result: string)
    ensures result == Decode(input)
  {
    TokenSpelling();
    result := input;
    PassUnfold(input, 1);
    result := ReplacePass(result, "\\S\\d", Letter(0));
    PassUnfold(input, 2);
    result := ReplacePass(result, "\\S\\|", Letter(1));
    PassUnfold(input, 3);
    result := ReplacePass(result, "\\S\\_", Letter(2));
    PassUnfold(input, 4);
    result := ReplacePass(result, "\\S\\c", Letter(3));
    PassUnfold(input, 5);
    result := ReplacePass(result, "\\S\\D", Letter(4));
    PassUnfold(input, 6);
    result := ReplacePass(result, "\\S\\\\", Letter(5));
    PassUnfold(input, 7);
    result := ReplacePass(result, "\\S\\C", Letter(6));
  }
}
