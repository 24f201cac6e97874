/** The string primitives the ingestion code is built from: Python's
    `str.strip(chars)`, `re.split(pattern + "+", s)` for a one-class pattern,
    and `sep.join(parts)`. */
module Text {
  import opened CharClass

  /** Every character of `s` satisfies `p`. */
  predicate All(s: string, p: char -> bool) {
    forall k :: 0 <= k < |s| ==> p(s[k])
  }

  /** No character of `s` satisfies `p`. */
  predicate NoneOf(s: string, p: char -> bool) {
    forall k :: 0 <= k < |s| ==> !p(s[k])
  }

  /** `s` neither starts nor ends with a character satisfying `p`. */
  predicate Trimmed(s: string, p: char -> bool) {
    s == [] || (!p(s[0]) && !p(s[|s| - 1]))
  }

  /** Length of the longest prefix of `s` whose characters all satisfy `drop`. */
  function LeftEnd(s: string, drop: char -> bool): (i: nat)
    ensures i <= |s|
    ensures forall k :: 0 <= k < i ==> drop(s[k])
    ensures i == |s| || !drop(s[i])
  {
    if s == [] || !drop(s[0]) then 0 else 1 + LeftEnd(s[1..], drop)
  }

  /** Start of the longest suffix of `s` whose characters all satisfy `drop`. */
  function RightEnd(s: string, drop: char -> bool): (j: nat)
    ensures j <= |s|
    ensures forall k :: j <= k < |s| ==> drop(s[k])
    ensures j == 0 || !drop(s[j - 1])
  {
    if s == [] || !drop(s[|s| - 1]) then |s| else RightEnd(s[..|s| - 1], drop)
  }

  lemma LeftEndUnique(s: string, drop: char -> bool, i: nat)
    requires i <= |s|
    requires forall k :: 0 <= k < i ==> drop(s[k])
    requires i == |s| || !drop(s[i])
    ensures LeftEnd(s, drop) == i
  {
  }

  lemma RightEndUnique(s: string, drop: char -> bool, j: nat)
    requires j <= |s|
    requires forall k :: j <= k < |s| ==> drop(s[k])
    requires j == 0 || !drop(s[j - 1])
    ensures RightEnd(s, drop) == j
  {
  }

  /** `s.strip(chars)`, where `drop` says which characters are in `chars`:
      the longest run of dropped characters is removed from each end. */
  function Strip(s: string, drop: char -> bool): (r: string)
    ensures Trimmed(r, drop)
    ensures All(s, drop) <==> r == []
  {
    var i := LeftEnd(s, drop);
    var t := s[i..];
    assert All(s, drop) ==> i == |s|;
    t[..RightEnd(t, drop)]
  }

  /** `Strip` only cuts: its result is a slice of its argument, and what it
      cuts off at either end consists of dropped characters only. */
  lemma StripIsSlice(s: string, drop: char -> bool) returns (i: nat)
    ensures i + |Strip(s, drop)| <= |s|
    ensures Strip(s, drop) == s[i..i + |Strip(s, drop)|]
    ensures All(s[..i], drop) && All(s[i + |Strip(s, drop)|..], drop)
  {
    i := LeftEnd(s, drop);
    var t := s[i..];
    var j := RightEnd(t, drop);
    assert t[..j] == s[i..i + j];
    var u := s[i + j..];
    assert All(u, drop) by {
      forall k | 0 <= k < |u| ensures drop(u[k]) {
        assert u[k] == t[j + k];
      }
    }
  }

  /** A character class absent from `s` stays absent after stripping. */
  lemma StripKeepsAbsence(s: string, drop: char -> bool, p: char -> bool)
    requires NoneOf(s, p)
    ensures NoneOf(Strip(s, drop), p)
  {
    var i := StripIsSlice(s, drop);
    var r := Strip(s, drop);
    forall k | 0 <= k < |r| ensures !p(r[k]) {
      assert r[k] == s[i + k];
    }
  }

  /** Stripping undoes padding: a string that is already trimmed comes back
      unchanged from `Strip` however many dropped characters surround it. */
  lemma StripPadded(p: string, s: string, q: string, drop: char -> bool)
    requires All(p, drop) && All(q, drop) && Trimmed(s, drop)
    ensures Strip(p + s + q, drop) == s
  {
    var w := p + s + q;
    if s == [] {
      assert All(w, drop) by {
        forall k | 0 <= k < |w| ensures drop(w[k]) {
          if k < |p| { assert w[k] == p[k]; } else { assert w[k] == q[k - |p|]; }
        }
      }
    } else {
      assert w[|p|] == s[0];
      LeftEndUnique(w, drop, |p|);
      var t := w[|p|..];
      assert t == s + q;
      assert t[|s| - 1] == s[|s| - 1];
      RightEndUnique(t, drop, |s|);
      assert t[..|s|] == s;
    }
  }

  /** `Strip` leaves a string alone exactly when it is already trimmed. */
  lemma StripFixedPoint(s: string, drop: char -> bool)
    ensures Strip(s, drop) == s <==> Trimmed(s, drop)
  {
    if Trimmed(s, drop) {
      StripPadded([], s, [], drop);
      assert [] + s + [] == s;
    }
  }

  /** `re.split("[,\s]+", s)` continued from a token `cur` already begun:
      tokens are the maximal delimiter-free runs, and a delimiter run at
      either end yields an empty first or last token. */
  function SplitFrom(s: string, cur: string): (r: seq<string>)
    requires NoneOf(cur, IsDelim)
    ensures |r| >= 1
    ensures forall k :: 0 <= k < |r| ==> NoneOf(r[k], IsDelim)
    ensures forall k :: 0 < k < |r| - 1 ==> r[k] != []
    ensures cur != [] || (s != [] && !IsDelim(s[0])) ==> r[0] != []
    decreases |s|
  {
    if s == [] then [cur]
    else if IsDelim(s[0]) then [cur] + SplitFrom(s[LeftEnd(s, IsDelim)..], [])
    else SplitFrom(s[1..], cur + [s[0]])
  }

  /** `re.split(r"[,\s]+", s)`. */
  function SplitOnDelimRuns(s: string): (r: seq<string>)
    ensures |r| >= 1
    ensures forall k :: 0 <= k < |r| ==> NoneOf(r[k], IsDelim)
    ensures forall k :: 0 < k < |r| - 1 ==> r[k] != []
  {
    SplitFrom(s, [])
  }

  /** `sep.join(ts)`. */
  function Join(ts: seq<string>, sep: string): (r: string)
    ensures |ts| > 0 && ts[0] != [] ==> r != [] && r[0] == ts[0][0]
    ensures |ts| > 0 && ts[|ts| - 1] != [] ==> r != [] && r[|r| - 1] == ts[|ts| - 1][|ts[|ts| - 1]| - 1]
  {
    if |ts| == 0 then []
    else if |ts| == 1 then ts[0]
    else ts[0] + sep + Join(ts[1..], sep)
  }

  lemma {:induction false} SplitFromWord(t: string, rest: string, cur: string)
    requires NoneOf(t, IsDelim) && NoneOf(cur, IsDelim)
    ensures NoneOf(cur + t, IsDelim)
    ensures SplitFrom(t + rest, cur) == SplitFrom(rest, cur + t)
    decreases |t|
  {
    if t == [] {
      assert t + rest == rest;
      assert cur + t == cur;
    } else {
      assert (t + rest)[0] == t[0];
      assert (t + rest)[1..] == t[1..] + rest;
      SplitFromWord(t[1..], rest, cur + [t[0]]);
      assert cur + [t[0]] + t[1..] == cur + t;
    }
  }

  lemma SplitFromSeparator(sep: string, rest: string, cur: string)
    requires sep != [] && All(sep, IsDelim) && NoneOf(cur, IsDelim)
    requires rest == [] || !IsDelim(rest[0])
    ensures SplitFrom(sep + rest, cur) == [cur] + SplitFrom(rest, [])
  {
    var w := sep + rest;
    assert w[0] == sep[0];
    if rest != [] { assert w[|sep|] == rest[0]; }
    LeftEndUnique(w, IsDelim, |sep|);
    assert w[|sep|..] == rest;
  }

  /** Splitting inverts joining: non-empty delimiter-free tokens joined by a
      non-empty run of delimiters split back into the same tokens. */
  lemma SplitJoinRoundTrip(ts: seq<string>, sep: string)
    requires |ts| >= 1
    requires forall k :: 0 <= k < |ts| ==> ts[k] != [] && NoneOf(ts[k], IsDelim)
    requires sep != [] && All(sep, IsDelim)
    ensures SplitOnDelimRuns(Join(ts, sep)) == ts
  {
    JoinIsInterleave(ts, sep);
    SepRuns(ts, sep, seq(|ts| - 1, _ => sep));
    SplitInterleave(ts, seq(|ts| - 1, _ => sep));
  }

  /** The runs of a join with one separator are delimiter runs, and its
      tokens are pieces a split can produce. */
  lemma SepRuns(ts: seq<string>, sep: string, runs: seq<string>)
    requires |ts| >= 1
    requires forall k :: 0 <= k < |ts| ==> ts[k] != [] && NoneOf(ts[k], IsDelim)
    requires sep != [] && All(sep, IsDelim)
    requires runs == seq(|ts| - 1, _ => sep)
    ensures SplitPieces(ts)
    ensures forall k :: 0 <= k < |runs| ==> DelimRun(runs[k])
  {
  }

  /** The piece a delimiter run at one end of the text adds to the split. */
  function EdgePiece(run: string): seq<string> {
    if run == [] then [] else [[]]
  }

  /** A delimiter run before or after joined tokens adds one empty piece at
      that end of the split, as `re.split` does for `",a,"`. */
  lemma SplitSurroundedJoin(ts: seq<string>, sep: string, pre: string, post: string)
    requires |ts| >= 1
    requires forall k :: 0 <= k < |ts| ==> ts[k] != [] && NoneOf(ts[k], IsDelim)
    requires sep != [] && All(sep, IsDelim)
    requires All(pre, IsDelim) && All(post, IsDelim)
    ensures SplitOnDelimRuns(pre + Join(ts, sep) + post) == EdgePiece(pre) + ts + EdgePiece(post)
  {
    JoinIsInterleave(ts, sep);
    SepRuns(ts, sep, seq(|ts| - 1, _ => sep));
    SplitSurroundedInterleave(ts, seq(|ts| - 1, _ => sep), pre, post);
  }

  lemma AllConcat(a: string, b: string, p: char -> bool)
    requires All(a, p) && All(b, p)
    ensures All(a + b, p)
  {
    forall k | 0 <= k < |a + b| ensures p((a + b)[k]) {
      if k < |a| {
        assert (a + b)[k] == a[k];
      } else {
        assert (a + b)[k] == b[k - |a|];
      }
    }
  }

  /** A non-empty run of delimiters: what `re.split(r"[,\s]+", s)` cuts out
      between two pieces. */
  predicate DelimRun(run: string) {
    run != [] && All(run, IsDelim)
  }

  /** The pieces `ps` with the runs `runs` put back between them:
      `ps[0] + runs[0] + ps[1] + ... + ps[|ps| - 1]`. */
  function Interleave(ps: seq<string>, runs: seq<string>): string
    requires |ps| == |runs| + 1
    decreases |runs|
  {
    if runs == [] then ps[0] else ps[0] + runs[0] + Interleave(ps[1..], runs[1..])
  }

  /** A sequence of pieces the split can produce: at least one piece, none
      holding a delimiter, and only the first and the last may be empty. */
  predicate SplitPieces(ps: seq<string>) {
    && |ps| >= 1
    && (forall k :: 0 <= k < |ps| ==> NoneOf(ps[k], IsDelim))
    && (forall k :: 0 < k < |ps| - 1 ==> ps[k] != [])
  }

  /** An interleaving starts with its first piece, so it starts with a
      non-delimiter unless it is empty. */
  lemma InterleaveStart(ps: seq<string>, runs: seq<string>)
    requires |ps| == |runs| + 1
    requires NoneOf(ps[0], IsDelim)
    requires runs != [] ==> ps[0] != []
    ensures Interleave(ps, runs) == [] || !IsDelim(Interleave(ps, runs)[0])
    ensures ps[0] != [] ==> Interleave(ps, runs) != [] && Interleave(ps, runs)[0] == ps[0][0]
  {
  }

  /** An interleaving ends with the last character of its last piece. */
  lemma {:induction false} InterleaveEnd(ps: seq<string>, runs: seq<string>)
    requires |ps| == |runs| + 1
    requires ps[|ps| - 1] != []
    ensures Interleave(ps, runs) != []
    ensures Interleave(ps, runs)[|Interleave(ps, runs)| - 1] == ps[|ps| - 1][|ps[|ps| - 1]| - 1]
    decreases |runs|
  {
    if runs != [] {
      var rest := Interleave(ps[1..], runs[1..]);
      InterleaveEnd(ps[1..], runs[1..]);
      var w := ps[0] + runs[0] + rest;
      assert w[|w| - 1] == rest[|rest| - 1];
    }
  }

  /** An empty piece in front, with the run `r` after it, puts `r` in front. */
  lemma InterleaveFront(ps: seq<string>, runs: seq<string>, r: string)
    requires |ps| == |runs| + 1
    ensures Interleave([[]] + ps, [r] + runs) == r + Interleave(ps, runs)
  {
    var e: string := [];
    var ps' := [e] + ps;
    var runs' := [r] + runs;
    assert ps'[1..] == ps;
    assert runs'[1..] == runs;
    assert Interleave(ps', runs') == ps'[0] + runs'[0] + Interleave(ps, runs);
    assert e + r == r;
  }

  /** An empty piece at the back, with the run `r` before it, puts `r` at the back. */
  lemma {:induction false} InterleaveBack(ps: seq<string>, runs: seq<string>, r: string)
    requires |ps| == |runs| + 1
    ensures Interleave(ps + [[]], runs + [r]) == Interleave(ps, runs) + r
    decreases |runs|
  {
    var ps' := ps + [[]];
    var runs' := runs + [r];
    assert ps'[0] == ps[0] && runs'[0] == (if runs == [] then r else runs[0]);
    if runs == [] {
      assert ps'[1..] == [[]] && runs'[1..] == [];
      assert ps[0] + r + [] == ps[0] + r;
    } else {
      assert ps'[1..] == ps[1..] + [[]];
      assert runs'[1..] == runs[1..] + [r];
      InterleaveBack(ps[1..], runs[1..], r);
      assert ps[0] + runs[0] + (Interleave(ps[1..], runs[1..]) + r)
          == ps[0] + runs[0] + Interleave(ps[1..], runs[1..]) + r;
    }
  }

  /** Splitting an interleaving, continued from a begun token `cur`, gives
      back its pieces, the first one prefixed by `cur`. */
  lemma {:induction false} SplitFromInterleave(ps: seq<string>, runs: seq<string>, cur: string)
    requires |ps| == |runs| + 1 && SplitPieces(ps)
    requires forall k :: 0 <= k < |runs| ==> DelimRun(runs[k])
    requires NoneOf(cur, IsDelim)
    ensures SplitFrom(Interleave(ps, runs), cur) == [cur + ps[0]] + ps[1..]
    decreases |runs|
  {
    if runs == [] {
      SplitFromWord(ps[0], [], cur);
      assert ps[0] + [] == ps[0];
      assert ps[1..] == [];
    } else {
      var tail := ps[1..];
      var rest := Interleave(tail, runs[1..]);
      assert Interleave(ps, runs) == ps[0] + (runs[0] + rest);
      SplitFromWord(ps[0], runs[0] + rest, cur);
      SplitPiecesTail(ps);
      assert runs[1..] != [] ==> tail[0] != [];
      InterleaveStart(tail, runs[1..]);
      assert DelimRun(runs[0]);
      SplitFromSeparator(runs[0], rest, cur + ps[0]);
      SplitFromInterleave(tail, runs[1..], []);
      assert [] + tail[0] == tail[0];
      assert [tail[0]] + tail[1..] == tail;
    }
  }

  /** Dropping the first piece keeps the shape of a split, and the new first
      piece is non-empty unless it is also the last. */
  lemma SplitPiecesTail(ps: seq<string>)
    requires |ps| >= 2 && SplitPieces(ps)
    ensures SplitPieces(ps[1..])
    ensures |ps| > 2 ==> ps[1..][0] != []
  {
    var tail := ps[1..];
    forall k | 0 <= k < |tail| ensures NoneOf(tail[k], IsDelim) {
      assert tail[k] == ps[k + 1];
    }
    forall k | 0 < k < |tail| - 1 ensures tail[k] != [] {
      assert tail[k] == ps[k + 1];
    }
  }

  /** The split is the only way to read a text as pieces separated by
      delimiter runs: splitting any such interleaving gives its pieces back,
      whichever run stands in each gap. */
  lemma SplitInterleave(ps: seq<string>, runs: seq<string>)
    requires |ps| == |runs| + 1 && SplitPieces(ps)
    requires forall k :: 0 <= k < |runs| ==> DelimRun(runs[k])
    ensures SplitOnDelimRuns(Interleave(ps, runs)) == ps
  {
    SplitFromInterleave(ps, runs, []);
    assert [] + ps[0] == ps[0];
    assert [ps[0]] + ps[1..] == ps;
  }

  /** Splitting from a begun token `cur` loses nothing: there are runs that,
      put back between the pieces, rebuild `cur + s`. */
  lemma {:induction false} SplitCoversFrom(s: string, cur: string) returns (runs: seq<string>)
    requires NoneOf(cur, IsDelim)
    ensures |runs| + 1 == |SplitFrom(s, cur)|
    ensures forall k :: 0 <= k < |runs| ==> DelimRun(runs[k])
    ensures Interleave(SplitFrom(s, cur), runs) == cur + s
    decreases |s|
  {
    if s == [] {
      runs := [];
      assert cur + s == cur;
    } else if IsDelim(s[0]) {
      var e := LeftEnd(s, IsDelim);
      var tail := s[e..];
      var more := SplitCoversFrom(tail, []);
      runs := [s[..e]] + more;
      var pieces := SplitFrom(tail, []);
      assert SplitFrom(s, cur) == [cur] + pieces;
      assert ([cur] + pieces)[0] == cur && ([cur] + pieces)[1..] == pieces;
      assert runs[0] == s[..e] && runs[1..] == more;
      assert DelimRun(s[..e]);
      assert [] + tail == tail;
      assert cur + s[..e] + tail == cur + s;
      forall k | 0 <= k < |runs| ensures DelimRun(runs[k]) {
        if k > 0 { assert runs[k] == more[k - 1]; }
      }
    } else {
      var cur' := cur + [s[0]];
      assert NoneOf(cur', IsDelim) by {
        forall k | 0 <= k < |cur'| ensures !IsDelim(cur'[k]) {
          if k < |cur| { assert cur'[k] == cur[k]; }
        }
      }
      runs := SplitCoversFrom(s[1..], cur');
      assert cur' + s[1..] == cur + s;
    }
  }

  /** The split loses nothing: putting the right delimiter runs back between
      the pieces rebuilds the text. With `SplitInterleave` this pins the
      pieces down as the text's maximal delimiter-free runs, in order. */
  lemma SplitCovers(s: string)
    ensures exists runs: seq<string> ::
      && |runs| + 1 == |SplitOnDelimRuns(s)|
      && (forall k :: 0 <= k < |runs| ==> DelimRun(runs[k]))
      && Interleave(SplitOnDelimRuns(s), runs) == s
  {
    var runs := SplitCoversFrom(s, []);
    assert [] + s == s;
  }

  /** `sep.join(ts)` is the interleaving of `ts` with `sep` in every gap. */
  lemma {:induction false} JoinIsInterleave(ts: seq<string>, sep: string)
    requires |ts| >= 1
    ensures Join(ts, sep) == Interleave(ts, seq(|ts| - 1, _ => sep))
    decreases |ts|
  {
    var runs := seq(|ts| - 1, _ => sep);
    if |ts| > 1 {
      JoinIsInterleave(ts[1..], sep);
      assert runs[0] == sep;
      assert runs[1..] == seq(|ts[1..]| - 1, _ => sep);
    }
  }

  /** The run a delimiter run at one end of the text adds between pieces. */
  function EdgeRun(run: string): seq<string> {
    if run == [] then [] else [run]
  }

  /** Delimiter runs before and after an interleaving each add one empty
      piece at that end of the split; the pieces come back unchanged. */
  lemma SplitSurroundedInterleave(ts: seq<string>, runs: seq<string>, pre: string, post: string)
    requires |ts| == |runs| + 1
    requires forall k :: 0 <= k < |ts| ==> ts[k] != [] && NoneOf(ts[k], IsDelim)
    requires forall k :: 0 <= k < |runs| ==> DelimRun(runs[k])
    requires All(pre, IsDelim) && All(post, IsDelim)
    ensures SplitOnDelimRuns(pre + Interleave(ts, runs) + post) == EdgePiece(pre) + ts + EdgePiece(post)
  {
    var ps := EdgePiece(pre) + ts + EdgePiece(post);
    var rs := EdgeRun(pre) + runs + EdgeRun(post);
    InterleaveEdges(ts, runs, pre, post);
    EdgedPieces(ts, pre, post);
    EdgedRuns(runs, pre, post);
    SplitInterleave(ps, rs);
  }

  /** Putting the edge runs and empty edge pieces into an interleaving adds
      the runs at its two ends. */
  lemma InterleaveEdges(ts: seq<string>, runs: seq<string>, pre: string, post: string)
    requires |ts| == |runs| + 1
    ensures |EdgePiece(pre) + ts + EdgePiece(post)| == |EdgeRun(pre) + runs + EdgeRun(post)| + 1
    ensures Interleave(EdgePiece(pre) + ts + EdgePiece(post), EdgeRun(pre) + runs + EdgeRun(post))
         == pre + Interleave(ts, runs) + post
  {
    var ps1 := EdgePiece(pre) + ts;
    var rs1 := EdgeRun(pre) + runs;
    if pre != [] {
      InterleaveFront(ts, runs, pre);
    } else {
      assert ps1 == ts && rs1 == runs;
    }
    if post != [] {
      InterleaveBack(ps1, rs1, post);
    } else {
      assert ps1 + EdgePiece(post) == ps1 && rs1 + EdgeRun(post) == rs1;
      assert pre + Interleave(ts, runs) + post == pre + Interleave(ts, runs);
    }
  }

  lemma EdgedRuns(runs: seq<string>, pre: string, post: string)
    requires forall k :: 0 <= k < |runs| ==> DelimRun(runs[k])
    requires All(pre, IsDelim) && All(post, IsDelim)
    ensures forall k :: 0 <= k < |EdgeRun(pre) + runs + EdgeRun(post)| ==>
              DelimRun((EdgeRun(pre) + runs + EdgeRun(post))[k])
  {
    var rs := EdgeRun(pre) + runs + EdgeRun(post);
    var n := |EdgeRun(pre)|;
    forall k | 0 <= k < |rs| ensures DelimRun(rs[k]) {
      if k < n {
        assert rs[k] == pre;
      } else if k < n + |runs| {
        assert rs[k] == runs[k - n];
      } else {
        assert rs[k] == post;
      }
    }
  }

  /** Non-empty delimiter-free tokens with an empty piece added at either
      end still form pieces a split can produce. */
  lemma EdgedPieces(ts: seq<string>, pre: string, post: string)
    requires |ts| >= 1
    requires forall k :: 0 <= k < |ts| ==> ts[k] != [] && NoneOf(ts[k], IsDelim)
    ensures SplitPieces(EdgePiece(pre) + ts + EdgePiece(post))
  {
    var ps := EdgePiece(pre) + ts + EdgePiece(post);
    var n := |EdgePiece(pre)|;
    forall k | 0 <= k < |ps| ensures NoneOf(ps[k], IsDelim) && (0 < k < |ps| - 1 ==> ps[k] != []) {
      if n <= k < n + |ts| {
        assert ps[k] == ts[k - n];
      } else {
        assert ps[k] == [];
      }
    }
  }
}
