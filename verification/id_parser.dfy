/** The free-text account-id parser, `parse_ids_from_text`: trim the text,
    split it on runs of commas and whitespace, strip quote characters off each
    token, drop empty tokens and keep the first occurrence of each. */
module IdParser {
  import opened CharClass
  import opened Text
  import opened Unique

  /** One token as the loop cleans it: `tok.strip().strip("'\"")`. */
  function CleanToken(tok: string): (r: string)
    ensures Trimmed(r, IsQuote)
  {
    Strip(Strip(tok, IsWs), IsQuote)
  }

  /** Cleaning never introduces a comma or whitespace. */
  lemma CleanTokenKeepsDelimFree(tok: string)
    requires NoneOf(tok, IsDelim)
    ensures NoneOf(CleanToken(tok), IsDelim)
  {
    StripKeepsAbsence(tok, IsWs, IsDelim);
    StripKeepsAbsence(Strip(tok, IsWs), IsQuote, IsDelim);
  }

  /** An identifier as the parser hands it on. */
  predicate IsCleanId(t: string) {
    t != [] && NoneOf(t, IsDelim) && Trimmed(t, IsQuote)
  }

  /** No token of `ts` holds a comma or whitespace. */
  predicate AllDelimFree(ts: seq<string>) {
    forall k :: 0 <= k < |ts| ==> NoneOf(ts[k], IsDelim)
  }

  /** The cleaned tokens of `raw` that are not empty, in order: the loop
      skips a token that cleans to nothing. */
  function NonEmptyTokens(raw: seq<string>): (r: seq<string>)
    ensures |r| <= |raw|
  {
    if raw == [] then []
    else
      var t := CleanToken(raw[0]);
      (if t != [] then [t] else []) + NonEmptyTokens(raw[1..])
  }

  /** Every kept token is non-empty and quote-trimmed, and is free of commas
      and whitespace when the raw tokens were. */
  lemma {:induction false} NonEmptyTokensClean(raw: seq<string>)
    ensures forall k :: 0 <= k < |NonEmptyTokens(raw)| ==>
              NonEmptyTokens(raw)[k] != [] && Trimmed(NonEmptyTokens(raw)[k], IsQuote)
    ensures AllDelimFree(raw) ==> AllDelimFree(NonEmptyTokens(raw))
    decreases |raw|
  {
    if raw != [] {
      var t := CleanToken(raw[0]);
      var rest := NonEmptyTokens(raw[1..]);
      var r := NonEmptyTokens(raw);
      NonEmptyTokensClean(raw[1..]);
      assert r == (if t != [] then [t] else []) + rest;
      forall k | 0 <= k < |r| ensures r[k] != [] && Trimmed(r[k], IsQuote) {
        if t == [] {
          assert r[k] == rest[k];
        } else if k > 0 {
          assert r[k] == rest[k - 1];
        }
      }
      if AllDelimFree(raw) {
        CleanTokenKeepsDelimFree(raw[0]);
        assert AllDelimFree(raw[1..]) by {
          forall k | 0 <= k < |raw| - 1 ensures NoneOf(raw[1..][k], IsDelim) {
            assert raw[1..][k] == raw[k + 1];
          }
        }
        forall k | 0 <= k < |r| ensures NoneOf(r[k], IsDelim) {
          if t == [] {
            assert r[k] == rest[k];
          } else if k > 0 {
            assert r[k] == rest[k - 1];
          }
        }
      }
    }
  }

  /** A string is among the kept tokens exactly when it is non-empty and
      some raw token cleans to it. */
  lemma {:induction false} NonEmptyTokensMembers(raw: seq<string>)
    ensures forall x :: x in NonEmptyTokens(raw) <==> x != [] && exists t :: t in raw && CleanToken(t) == x
    decreases |raw|
  {
    if raw != [] {
      NonEmptyTokensMembers(raw[1..]);
      forall x | x != [] && (exists t :: t in raw && CleanToken(t) == x)
        ensures x in NonEmptyTokens(raw)
      {
        var t :| t in raw && CleanToken(t) == x;
        if t != raw[0] {
          assert t in raw[1..];
        }
      }
    }
  }

  lemma {:induction false} NonEmptyTokensSnoc(raw: seq<string>, tok: string)
    ensures NonEmptyTokens(raw + [tok])
         == NonEmptyTokens(raw) + (if CleanToken(tok) != [] then [CleanToken(tok)] else [])
    decreases |raw|
  {
    var x := CleanToken(tok);
    var last := if x != [] then [x] else [];
    if raw == [] {
      assert raw + [tok] == [tok];
      assert [tok][1..] == [];
    } else {
      var t0 := CleanToken(raw[0]);
      var first := if t0 != [] then [t0] else [];
      var w := raw + [tok];
      assert w[0] == raw[0];
      assert w[1..] == raw[1..] + [tok];
      calc {
        NonEmptyTokens(w);
        first + NonEmptyTokens(raw[1..] + [tok]);
        { NonEmptyTokensSnoc(raw[1..], tok); }
        first + (NonEmptyTokens(raw[1..]) + last);
        { ConcatAssoc(first, NonEmptyTokens(raw[1..]), last); }
        first + NonEmptyTokens(raw[1..]) + last;
        NonEmptyTokens(raw) + last;
      }
    }
  }

  /** The raw pieces `re.split(r"[,\s]+", text.strip())` of a text that is not blank. */
  function RawTokens(text: string): (raw: seq<string>)
    ensures AllDelimFree(raw)
  {
    SplitOnDelimRuns(Strip(text, IsWs))
  }

  /** The cleaned, non-empty tokens of `text` in input order, before
      deduplication; none at all for blank text, which the parser answers
      with an empty list before splitting. */
  function CandidateTokens(text: string): (r: seq<string>)
    ensures All(text, IsWs) ==> r == []
    ensures forall k :: 0 <= k < |r| ==> IsCleanId(r[k])
  {
    if Strip(text, IsWs) == [] then []
    else
      NonEmptyTokensClean(RawTokens(text));
      NonEmptyTokens(RawTokens(text))
  }

  /** `parse_ids_from_text(text)`. */
  function ParseIds(text: string): (ids: seq<string>)
    ensures All(text, IsWs) ==> ids == []
    ensures Distinct(ids)
    ensures forall k :: 0 <= k < |ids| ==> IsCleanId(ids[k])
  {
    var cands := CandidateTokens(text);
    var ids := Dedupe(cands);
    assert forall k :: 0 <= k < |ids| ==> IsCleanId(ids[k]) by {
      forall k | 0 <= k < |ids| ensures IsCleanId(ids[k]) {
        assert ids[k] in cands;
      }
    }
    ids
  }

  /** The parser's output holds every cleaned non-empty token of the text and
      nothing else, each once, in the order of first occurrence. */
  lemma ParseIdsFirstSeen(text: string)
    ensures forall x :: x in ParseIds(text) <==> x in CandidateTokens(text)
    ensures FirstSeenOrder(ParseIds(text), CandidateTokens(text))
  {
    DedupeFirstSeen(CandidateTokens(text));
  }

  lemma NonEmptyTokensPrefix(raw: seq<string>, i: nat)
    requires i < |raw|
    ensures NonEmptyTokens(raw[..i + 1])
         == NonEmptyTokens(raw[..i]) + (if CleanToken(raw[i]) != [] then [CleanToken(raw[i])] else [])
  {
    assert raw[..i + 1] == raw[..i] + [raw[i]];
    NonEmptyTokensSnoc(raw[..i], raw[i]);
  }

  /** One turn of the parser's loop, on the `i`-th raw token: the
      cleaned token is appended to the output exactly when it is non-empty
      and not yet seen. */
  lemma ParseLoopStep(raw: seq<string>, i: nat, out: seq<string>, seen: set<string>)
    requires i < |raw|
    requires out == Dedupe(NonEmptyTokens(raw[..i]))
    requires forall x :: x in seen <==> x in out
    ensures Dedupe(NonEmptyTokens(raw[..i + 1]))
         == if CleanToken(raw[i]) != [] && CleanToken(raw[i]) !in seen
            then out + [CleanToken(raw[i])] else out
  {
    var tok := CleanToken(raw[i]);
    var prev := NonEmptyTokens(raw[..i]);
    NonEmptyTokensPrefix(raw, i);
    if tok != [] {
      DedupeFromSnoc(prev, tok, {});
    } else {
      assert prev + [] == prev;
    }
  }

  /** The parser's loop as written, with its `seen` set and `out` list:
      it cleans, filters and deduplicates the raw pieces in one pass. */
  method CleanAndDedupe(raw: seq<string>) returns (out: seq<string>)
    ensures out == Dedupe(NonEmptyTokens(raw))
  {
    var seen: set<string> := {};
    out := [];
    var i := 0;
    assert raw[..0] == [];
    while i < |raw|
      invariant 0 <= i <= |raw|
      invariant out == Dedupe(NonEmptyTokens(raw[..i]))
      invariant forall x :: x in seen <==> x in out
    {
      var tok := CleanToken(raw[i]);
      ParseLoopStep(raw, i, out, seen);
      SeenStep(out, seen, tok);
      if tok != [] && tok !in seen {
        seen := seen + {tok};
        out := out + [tok];
      }
      i := i + 1;
    }
    assert raw[..i] == raw;
  }

  /** Adding an id to both the `seen` set and the output keeps them in step. */
  lemma SeenStep(out: seq<string>, seen: set<string>, tok: string)
    requires forall x :: x in seen <==> x in out
    ensures forall x :: x in seen + {tok} <==> x in out + [tok]
  {
  }

  /** `parse_ids_from_text` as written: the blank check, the split, the loop. */
  method ParseIdsFromText(text: string) returns (out: seq<string>)
    ensures out == ParseIds(text)
  {
    var stripped := Strip(text, IsWs);
    if stripped == [] {
      return [];
    }
    var raw := SplitOnDelimRuns(stripped);
    out := CleanAndDedupe(raw);
  }

  /** The `tok.strip()` in the loop never changes anything: the split has
      already removed every whitespace character. */
  lemma InnerStripIsNoOp(text: string)
    ensures forall t :: t in RawTokens(text) ==> Strip(t, IsWs) == t
  {
    forall t | t in RawTokens(text) ensures Strip(t, IsWs) == t {
      StripFixedPoint(t, IsWs);
    }
  }

  /** `strip("'\"")` removes any run of either quote character from each end,
      not matching pairs only: `'abc"` cleans to `abc`. */
  lemma MismatchedQuotesAreStripped()
    ensures CleanToken("'abc\"") == "abc"
  {
    var tok := "'abc\"";
    assert tok == "'" + "abc" + "\"";
    assert !IsWs(tok[0]) && !IsWs(tok[|tok| - 1]);
    StripFixedPoint(tok, IsWs);
    StripPadded("'", "abc", "\"", IsQuote);
  }

  lemma {:induction false} CleanIdsAreKept(ts: seq<string>)
    requires forall k :: 0 <= k < |ts| ==> IsCleanId(ts[k])
    ensures NonEmptyTokens(ts) == ts
    decreases |ts|
  {
    if ts != [] {
      CleanIdIsFixed(ts[0]);
      assert forall k :: 0 <= k < |ts[1..]| ==> IsCleanId(ts[1..][k]) by {
        forall k | 0 <= k < |ts[1..]| ensures IsCleanId(ts[1..][k]) {
          assert ts[1..][k] == ts[k + 1];
        }
      }
      CleanIdsAreKept(ts[1..]);
      assert NonEmptyTokens(ts) == [ts[0]] + NonEmptyTokens(ts[1..]);
      assert [ts[0]] + ts[1..] == ts;
    }
  }

  /** A clean id is its own cleaned form. */
  lemma CleanIdIsFixed(t: string)
    requires IsCleanId(t)
    ensures CleanToken(t) == t
  {
    assert Trimmed(t, IsWs) by {
      assert !IsDelim(t[0]) && !IsDelim(t[|t| - 1]);
    }
    StripFixedPoint(t, IsWs);
    StripFixedPoint(t, IsQuote);
  }

  /** Distinct clean identifiers joined by one repeated non-empty run of
      delimiters, with any trailing whitespace, parse back to themselves. */
  lemma ParseJoinRoundTrip(ts: seq<string>, sep: string, pad: string)
    requires Distinct(ts)
    requires forall k :: 0 <= k < |ts| ==> IsCleanId(ts[k])
    requires sep != [] && All(sep, IsDelim)
    requires All(pad, IsWs)
    ensures ParseIds(Join(ts, sep) + pad) == ts
  {
    var none: string := [];
    assert Join(ts, sep) + pad == none + Join(ts, sep) + pad;
    assert All(pad, IsDelim);
    ParseSurroundedJoinAt(ts, sep, none, pad, Join(ts, sep) + pad);
  }

  /** `ParseSurroundedJoin` for a text already known to have that shape. */
  lemma ParseSurroundedJoinAt(ts: seq<string>, sep: string, pre: string, post: string, text: string)
    requires Distinct(ts)
    requires forall k :: 0 <= k < |ts| ==> IsCleanId(ts[k])
    requires sep != [] && All(sep, IsDelim)
    requires All(pre, IsDelim) && All(post, IsDelim)
    requires text == pre + Join(ts, sep) + post
    ensures ParseIds(text) == ts
  {
    ParseSurroundedJoin(ts, sep, pre, post);
  }

  /** Re-parsing the parser's own output, joined with a comma or a newline,
      gives the same list. */
  lemma ParseIdsIdempotent(text: string)
    ensures ParseIds(Join(ParseIds(text), ",")) == ParseIds(text)
    ensures ParseIds(Join(ParseIds(text), "\n")) == ParseIds(text)
  {
    var ids := ParseIds(text);
    var none: string := [];
    ParseJoinRoundTrip(ids, ",", none);
    assert Join(ids, ",") + none == Join(ids, ",");
    ParseJoinRoundTrip(ids, "\n", none);
    assert Join(ids, "\n") + none == Join(ids, "\n");
  }

  /** The empty pieces a split leaves at either end are skipped as empty tokens. */
  lemma NonEmptyTokensDropEdges(ts: seq<string>, pre: string, post: string)
    requires forall k :: 0 <= k < |ts| ==> IsCleanId(ts[k])
    ensures NonEmptyTokens(EdgePiece(pre) + ts + EdgePiece(post)) == ts
  {
    CleanIdsAreKept(ts);
    DropLeadingEdge(ts, pre);
    DropTrailingEdge(EdgePiece(pre) + ts, post);
  }

  lemma DropLeadingEdge(xs: seq<string>, pre: string)
    ensures NonEmptyTokens(EdgePiece(pre) + xs) == NonEmptyTokens(xs)
  {
    var front := EdgePiece(pre) + xs;
    if pre != [] {
      assert front[0] == [] && front[1..] == xs;
      assert CleanToken([]) == [];
    } else {
      assert front == xs;
    }
  }

  lemma DropTrailingEdge(xs: seq<string>, post: string)
    ensures NonEmptyTokens(xs + EdgePiece(post)) == NonEmptyTokens(xs)
  {
    if post != [] {
      NonEmptyTokensSnoc(xs, []);
      assert CleanToken([]) == [];
      assert NonEmptyTokens(xs) + [] == NonEmptyTokens(xs);
    } else {
      assert xs + EdgePiece(post) == xs;
    }
  }

  /** Text made only of commas and whitespace, in any mix, holds no id,
      although it is blank only when it holds no comma. */
  lemma DelimsOnly(text: string)
    requires All(text, IsDelim)
    ensures ParseIds(text) == []
  {
    var s := Strip(text, IsWs);
    if s != [] {
      var i := StripIsSlice(text, IsWs);
      assert All(s, IsDelim) by {
        forall k | 0 <= k < |s| ensures IsDelim(s[k]) {
          assert s[k] == text[i + k];
        }
      }
      SplitFromSeparator(s, [], []);
      assert s + [] == s;
      assert RawTokens(text) == [[], []];
      EmptyPiecesDropped();
    }
  }

  /** Stripping whitespace off text made of a middle part between two
      delimiter runs cuts into the runs only. */
  lemma StripAround(pre: string, m: string, post: string) returns (pre': string, post': string)
    requires m != [] && !IsDelim(m[0]) && !IsDelim(m[|m| - 1])
    requires All(pre, IsDelim) && All(post, IsDelim)
    ensures All(pre', IsDelim) && All(post', IsDelim)
    ensures Strip(pre + m + post, IsWs) == pre' + m + post'
  {
    var i := LeftEnd(pre, IsWs);
    var j := RightEnd(post, IsWs);
    pre' := pre[i..];
    post' := post[..j];
    SliceAll(pre, i, |pre|);
    SliceAll(post, 0, j);
    WsEnds(pre, i, post, j);
    CutEnds(pre, m, post, i, j);
    MiddleTrimmed(pre', m, post');
    StripPadded(pre[..i], pre' + m + post', post[j..], IsWs);
  }

  /** The whitespace that `Strip` cuts off either end, as slices. */
  lemma WsEnds(pre: string, i: nat, post: string, j: nat)
    requires i <= |pre| && j <= |post|
    requires forall k :: 0 <= k < i ==> IsWs(pre[k])
    requires forall k :: j <= k < |post| ==> IsWs(post[k])
    ensures All(pre[..i], IsWs) && All(post[j..], IsWs)
  {
    assert forall k :: 0 <= k < |post| - j ==> post[j..][k] == post[j + k];
  }

  /** Cutting a prefix off `pre` and a suffix off `post` regroups the text
      around a longer middle. */
  lemma CutEnds(pre: string, m: string, post: string, i: nat, j: nat)
    requires i <= |pre| && j <= |post|
    ensures pre + m + post == pre[..i] + (pre[i..] + m + post[..j]) + post[j..]
  {
    assert pre == pre[..i] + pre[i..];
    assert post == post[..j] + post[j..];
  }

  lemma SliceAll(s: string, i: nat, j: nat)
    requires i <= j <= |s| && All(s, IsDelim)
    ensures All(s[i..j], IsDelim)
  {
    forall k | 0 <= k < j - i ensures IsDelim(s[i..j][k]) {
      assert s[i..j][k] == s[i + k];
    }
  }

  /** A middle part that starts and ends with a non-delimiter, between runs
      that do not start or end with whitespace, is whitespace-trimmed. */
  lemma MiddleTrimmed(pre: string, m: string, post: string)
    requires m != [] && !IsDelim(m[0]) && !IsDelim(m[|m| - 1])
    requires pre == [] || !IsWs(pre[0])
    requires post == [] || !IsWs(post[|post| - 1])
    ensures Trimmed(pre + m + post, IsWs)
  {
    var mid := pre + m + post;
    if pre == [] { assert mid[0] == m[0]; } else { assert mid[0] == pre[0]; }
    if post == [] { assert mid[|mid| - 1] == m[|m| - 1]; } else { assert mid[|mid| - 1] == post[|post| - 1]; }
  }

  /** Clean ids separated by delimiter runs, each gap its own run (`", "`,
      `"\n"`, `" \t,"`, ...), and with delimiter runs before and after, yield
      exactly those ids in order before deduplication. */
  lemma InterleavedCandidates(ts: seq<string>, runs: seq<string>, pre: string, post: string)
    requires |ts| == |runs| + 1
    requires forall k :: 0 <= k < |ts| ==> IsCleanId(ts[k])
    requires forall k :: 0 <= k < |runs| ==> DelimRun(runs[k])
    requires All(pre, IsDelim) && All(post, IsDelim)
    ensures CandidateTokens(pre + Interleave(ts, runs) + post) == ts
  {
    var m := Interleave(ts, runs);
    InterleaveStart(ts, runs);
    InterleaveEnd(ts, runs);
    var pre', post' := StripAround(pre, m, post);
    assert forall k :: 0 <= k < |ts| ==> ts[k] != [] && NoneOf(ts[k], IsDelim);
    SplitSurroundedInterleave(ts, runs, pre', post');
    NonEmptyTokensDropEdges(ts, pre', post');
  }

  /** Pasted text in general: clean ids separated by any delimiter runs, with
      delimiter runs before and after, parse to the ids with repeats dropped,
      and to exactly the ids when they are distinct. */
  lemma ParseInterleaved(ts: seq<string>, runs: seq<string>, pre: string, post: string)
    requires |ts| == |runs| + 1
    requires forall k :: 0 <= k < |ts| ==> IsCleanId(ts[k])
    requires forall k :: 0 <= k < |runs| ==> DelimRun(runs[k])
    requires All(pre, IsDelim) && All(post, IsDelim)
    ensures ParseIds(pre + Interleave(ts, runs) + post) == Dedupe(ts)
    ensures Distinct(ts) ==> ParseIds(pre + Interleave(ts, runs) + post) == ts
  {
    InterleavedCandidates(ts, runs, pre, post);
    DedupeFixedPoint(ts);
  }

  /** Distinct clean ids joined by one repeated delimiter run, with delimiter
      runs before and after, parse back to themselves: `",a,b,\n"` gives
      `a`, `b`. */
  lemma ParseSurroundedJoin(ts: seq<string>, sep: string, pre: string, post: string)
    requires Distinct(ts)
    requires forall k :: 0 <= k < |ts| ==> IsCleanId(ts[k])
    requires sep != [] && All(sep, IsDelim)
    requires All(pre, IsDelim) && All(post, IsDelim)
    ensures ParseIds(pre + Join(ts, sep) + post) == ts
  {
    if ts == [] {
      SurroundedNothing(ts, sep, pre, post);
    } else {
      JoinIsInterleave(ts, sep);
      var runs := seq(|ts| - 1, _ => sep);
      assert forall k :: 0 <= k < |runs| ==> DelimRun(runs[k]);
      ParseInterleaved(ts, runs, pre, post);
    }
  }

  lemma SurroundedNothing(ts: seq<string>, sep: string, pre: string, post: string)
    requires ts == []
    requires All(pre, IsDelim) && All(post, IsDelim)
    ensures ParseIds(pre + Join(ts, sep) + post) == []
  {
    assert pre + Join(ts, sep) + post == pre + post;
    AllConcat(pre, post, IsDelim);
    DelimsOnly(pre + post);
  }

  /** `"a, b\nc"`, with a comma and space in one gap and a newline in the
      other, parses to `a`, `b`, `c`. */
  lemma ParseMixedSeparators()
    ensures ParseIds("a, b\nc") == ["a", "b", "c"]
  {
    var ts := ["a", "b", "c"];
    var runs := [", ", "\n"];
    var none: string := [];
    assert Interleave(ts, runs) == "a, b\nc";
    assert none + "a, b\nc" + none == "a, b\nc";
    assert Distinct(ts);
    ParseInterleaved(ts, runs, none, none);
  }

  lemma EmptyPiecesDropped()
    ensures NonEmptyTokens([[], []]) == []
  {
    var e: seq<string> := [[], []];
    assert CleanToken([]) == [];
    var one: seq<string> := [[]];
    assert e[1..] == one;
    assert one[1..] == [];
  }
}
