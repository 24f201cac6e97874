/** The account-column resolver: `normalize_colname`, which reduces a CSV
    header to lower-case letters and digits, and `pick_acct_column`, which
    finds the header that holds account ids. */
module ColumnResolver {
  import opened Wrappers
  import opened CharClass
  import opened Text
  import opened Unique

  /** `re.sub(r"[^0-9a-zA-Z]+", "", name).lower()`: every character outside
      `[0-9a-zA-Z]` is deleted and the rest is lower-cased. */
  function NormalizeColname(name: string): (r: string)
    ensures |r| <= |name|
    decreases |name|
  {
    if name == [] then []
    else (if IsAsciiAlnum(name[0]) then [ToLowerAscii(name[0])] else []) + NormalizeColname(name[1..])
  }

  /** The normal form holds only lower-case ASCII letters and digits, is no
      longer than the name, and is empty exactly when the name has no ASCII
      letter or digit. */
  lemma {:induction false} NormalizeShape(name: string)
    ensures All(NormalizeColname(name), IsLowerAlnum)
    ensures |NormalizeColname(name)| <= |name|
    ensures NormalizeColname(name) == [] <==> NoneOf(name, IsAsciiAlnum)
    decreases |name|
  {
    if name != [] {
      var rest := NormalizeColname(name[1..]);
      NormalizeShape(name[1..]);
      var r := NormalizeColname(name);
      assert All(r, IsLowerAlnum) by {
        forall k | 0 <= k < |r| ensures IsLowerAlnum(r[k]) {
          if !IsAsciiAlnum(name[0]) {
            assert r[k] == rest[k];
          } else if k > 0 {
            assert r[k] == rest[k - 1];
          }
        }
      }
      assert NoneOf(name, IsAsciiAlnum) <==> !IsAsciiAlnum(name[0]) && NoneOf(name[1..], IsAsciiAlnum) by {
        if !IsAsciiAlnum(name[0]) && NoneOf(name[1..], IsAsciiAlnum) {
          forall k | 0 < k < |name| ensures !IsAsciiAlnum(name[k]) {
            assert name[k] == name[1..][k - 1];
          }
        }
      }
    }
  }

  /** Normalising distributes over concatenation: each character is kept or
      deleted on its own. */
  lemma {:induction false} NormalizeAppend(a: string, b: string)
    ensures NormalizeColname(a + b) == NormalizeColname(a) + NormalizeColname(b)
    decreases |a|
  {
    if a == [] {
      assert a + b == b;
    } else {
      assert (a + b)[0] == a[0];
      assert (a + b)[1..] == a[1..] + b;
      NormalizeAppend(a[1..], b);
      var head := if IsAsciiAlnum(a[0]) then [ToLowerAscii(a[0])] else [];
      ConcatAssoc(head, NormalizeColname(a[1..]), NormalizeColname(b));
    }
  }

  /** A name is its own normal form exactly when it is made of lower-case
      ASCII letters and digits only. */
  lemma {:induction false} NormalizeFixedPoint(s: string)
    ensures NormalizeColname(s) == s <==> All(s, IsLowerAlnum)
    decreases |s|
  {
    NormalizeShape(s);
    if s != [] && All(s, IsLowerAlnum) {
      assert All(s[1..], IsLowerAlnum) by {
        forall k | 0 <= k < |s| - 1 ensures IsLowerAlnum(s[1..][k]) {
          assert s[1..][k] == s[k + 1];
        }
      }
      NormalizeFixedPoint(s[1..]);
      assert [s[0]] + s[1..] == s;
    }
  }

  /** Normalising twice is normalising once. */
  lemma NormalizeIdempotent(s: string)
    ensures NormalizeColname(NormalizeColname(s)) == NormalizeColname(s)
  {
    NormalizeShape(s);
    NormalizeFixedPoint(NormalizeColname(s));
  }

  /** A name made only of ASCII letters and digits loses nothing: it is
      lower-cased character by character. */
  lemma {:induction false} NormalizeAllAlnum(s: string)
    requires All(s, IsAsciiAlnum)
    ensures |NormalizeColname(s)| == |s|
    ensures forall k :: 0 <= k < |s| ==> NormalizeColname(s)[k] == ToLowerAscii(s[k])
    decreases |s|
  {
    if s != [] {
      assert All(s[1..], IsAsciiAlnum) by {
        forall k | 0 <= k < |s| - 1 ensures IsAsciiAlnum(s[1..][k]) {
          assert s[1..][k] == s[k + 1];
        }
      }
      NormalizeAllAlnum(s[1..]);
      forall k | 0 < k < |s| ensures NormalizeColname(s)[k] == ToLowerAscii(s[k]) {
        assert s[k] == s[1..][k - 1];
      }
    }
  }

  /** A name of ASCII letters and digits normalises to its lower-cased
      spelling `t`. */
  lemma NormalizeWord(s: string, t: string)
    requires All(s, IsAsciiAlnum)
    requires |t| == |s| && forall k :: 0 <= k < |s| ==> t[k] == ToLowerAscii(s[k])
    ensures NormalizeColname(s) == t
  {
    NormalizeAllAlnum(s);
  }

  /** A separator without letters or digits vanishes from between two words. */
  lemma NormalizeGlue(a: string, sep: string, b: string)
    requires NoneOf(sep, IsAsciiAlnum)
    ensures NormalizeColname(a + sep + b) == NormalizeColname(a) + NormalizeColname(b)
  {
    NormalizeShape(sep);
    var ab := a + sep;
    NormalizeAppend(ab, b);
    NormalizeAppend(a, sep);
    assert NormalizeColname(ab) == NormalizeColname(a) + [];
    assert NormalizeColname(a) + [] == NormalizeColname(a);
  }

  lemma NormalizeAcct()
    ensures NormalizeColname("ACCT") == "acct"
  {
    var s := "ACCT";
    assert All(s, IsAsciiAlnum) by {
      forall k | 0 <= k < |s| ensures IsAsciiAlnum(s[k]) {
      }
    }
    NormalizeWord(s, "acct");
  }

  /** The two spellings `normalize_colname` documents, `ACCT_Id` and `ACCT ID`,
      both normalise to `acctid`. */
  lemma NormalizeExamples()
    ensures NormalizeColname("ACCT_Id") == "acctid"
    ensures NormalizeColname("ACCT ID") == "acctid"
  {
    NormalizeUnderscored();
    NormalizeSpaced();
  }

  /** `ACCT`, a separator without letters or digits, and `id` in any case
      normalise to `acctid`. */
  lemma NormalizeAcctSepId(sep: string, id: string)
    requires NoneOf(sep, IsAsciiAlnum)
    requires |id| == 2 && (id[0] == 'i' || id[0] == 'I') && (id[1] == 'd' || id[1] == 'D')
    ensures NormalizeColname("ACCT" + sep + id) == "acctid"
  {
    NormalizeAcct();
    assert All(id, IsAsciiAlnum);
    NormalizeWord(id, "id");
    NormalizeGlue("ACCT", sep, id);
  }

  lemma NormalizeUnderscored()
    ensures NormalizeColname("ACCT_Id") == "acctid"
  {
    NormalizeAcctSepId("_", "Id");
    assert "ACCT" + "_" + "Id" == "ACCT_Id";
  }

  lemma NormalizeSpaced()
    ensures NormalizeColname("ACCT ID") == "acctid"
  {
    NormalizeAcctSepId(" ", "ID");
    assert "ACCT" + " " + "ID" == "ACCT ID";
  }

  lemma NormalizeAcctIdUpper()
    ensures NormalizeColname("ACCT_ID") == "acctid"
  {
    NormalizeAcctSepId("_", "ID");
    assert "ACCT" + "_" + "ID" == "ACCT_ID";
  }

  lemma NormalizeAccountIdMixed()
    ensures NormalizeColname("AccountID") == "accountid"
  {
    var s := "AccountID";
    assert All(s, IsAsciiAlnum) by {
      forall k | 0 <= k < |s| ensures IsAsciiAlnum(s[k]) {
      }
    }
    NormalizeWord(s, "accountid");
  }

  lemma NormalizeAcctIdMixed()
    ensures NormalizeColname("AcctID") == "acctid"
  {
    var s := "AcctID";
    assert All(s, IsAsciiAlnum) by {
      forall k | 0 <= k < |s| ensures IsAsciiAlnum(s[k]) {
      }
    }
    NormalizeWord(s, "acctid");
  }

  /** Normalised names never hold `_`, so the underscored spellings in the
      preferred set can never be found. */
  lemma UnderscoredSpellingsNeverMatch(name: string)
    ensures NormalizeColname(name) != "acct_id"
    ensures NormalizeColname(name) != "account_id"
    ensures NormalizeColname(name) in Preferred <==>
              NormalizeColname(name) == "acctid" || NormalizeColname(name) == "accountid"
  {
    var n := NormalizeColname(name);
    NormalizeShape(name);
    if |n| == 7 {
      assert IsLowerAlnum(n[4]) && !IsLowerAlnum("acct_id"[4]);
    }
    if |n| == 10 {
      assert IsLowerAlnum(n[7]) && !IsLowerAlnum("account_id"[7]);
    }
  }

  // ---------------------------------------------------------------------
  // pick_acct_column

  /** The preferred spellings `pick_acct_column` looks up first. */
  const Preferred: set<string> := {"acct_id", "acctid", "account_id", "accountid"}

  /** An order in which a Python `set` may hand out the preferred spellings:
      each exactly once. The actual order depends on the string hash seed of
      the running interpreter, so it is a parameter of the model. */
  predicate IsHashOrder(order: seq<string>) {
    && Distinct(order)
    && (forall w :: w in order ==> w in Preferred)
    && (forall w :: w in Preferred ==> w in order)
  }

  /** Python's `sub in s` on strings. */
  predicate Contains(s: string, sub: string) {
    exists i :: 0 <= i <= |s| - |sub| && OccursAt(s, sub, i)
  }

  predicate OccursAt(s: string, sub: string, i: int) {
    0 <= i && i + |sub| <= |s| && s[i..i + |sub|] == sub
  }

  /** The fallback test: the normalised name contains both `acct` and `id`. */
  predicate IsFallbackName(norm: string) {
    Contains(norm, "acct") && Contains(norm, "id")
  }

  /** Some column normalises to `k`. */
  predicate HasKey(columns: seq<string>, k: string) {
    exists i :: 0 <= i < |columns| && NormalizeColname(columns[i]) == k
  }

  /** Column `i` normalises to `k` and no column to its right does. */
  predicate IsRightmostWithKey(columns: seq<string>, i: int, k: string) {
    && 0 <= i < |columns|
    && NormalizeColname(columns[i]) == k
    && forall j :: i < j < |columns| ==> NormalizeColname(columns[j]) != k
  }

  /** Column `i` passes the fallback test and no column to its left does. */
  predicate IsLeftmostFallback(columns: seq<string>, i: int) {
    && 0 <= i < |columns|
    && IsFallbackName(NormalizeColname(columns[i]))
    && forall j :: 0 <= j < i ==> !IsFallbackName(NormalizeColname(columns[j]))
  }

  /** The dict comprehension `{normalize_colname(c): c for c in
      columns}`, built left to right as Python builds it. */
  function NormalizedIndex(columns: seq<string>): (index: map<string, string>)
    ensures forall k :: k in index ==> index[k] in columns
    decreases |columns|
  {
    if columns == [] then map[]
    else
      var n := |columns| - 1;
      NormalizedIndex(columns[..n])[NormalizeColname(columns[n]) := columns[n]]
  }

  /** The index has a key for every normalised column name and no other. */
  lemma {:induction false} NormalizedIndexKeys(columns: seq<string>)
    ensures forall k :: k in NormalizedIndex(columns) <==> HasKey(columns, k)
    decreases |columns|
  {
    if columns != [] {
      var n := |columns| - 1;
      var prefix := columns[..n];
      var m' := NormalizedIndex(prefix);
      var m := NormalizedIndex(columns);
      NormalizedIndexKeys(prefix);
      assert m == m'[NormalizeColname(columns[n]) := columns[n]];
      forall k | HasKey(columns, k) ensures k in m {
        var i :| 0 <= i < |columns| && NormalizeColname(columns[i]) == k;
        if i < n {
          assert prefix[i] == columns[i];
        }
      }
      forall k | k in m' ensures HasKey(columns, k) {
        var i :| 0 <= i < |prefix| && NormalizeColname(prefix[i]) == k;
        assert columns[i] == prefix[i];
      }
    }
  }

  /** A later column overwrites an earlier one with the same key, so each key
      of the index maps to the rightmost column carrying it. */
  lemma {:induction false} NormalizedIndexRightmost(columns: seq<string>)
    ensures forall k :: k in NormalizedIndex(columns) ==>
              exists i :: IsRightmostWithKey(columns, i, k) && columns[i] == NormalizedIndex(columns)[k]
    decreases |columns|
  {
    if columns != [] {
      var n := |columns| - 1;
      var prefix := columns[..n];
      var last := columns[n];
      var m' := NormalizedIndex(prefix);
      var m := NormalizedIndex(columns);
      NormalizedIndexRightmost(prefix);
      assert m == m'[NormalizeColname(last) := last];
      forall k | k in m ensures exists i :: IsRightmostWithKey(columns, i, k) && columns[i] == m[k] {
        if k == NormalizeColname(last) {
          assert IsRightmostWithKey(columns, n, k);
        } else {
          RightmostInPrefix(columns, n, k, m');
        }
      }
    }
  }

  lemma RightmostInPrefix(columns: seq<string>, n: nat, k: string, m': map<string, string>)
    requires n < |columns| && n == |columns| - 1
    requires NormalizeColname(columns[n]) != k
    requires k in m'
    requires exists i :: IsRightmostWithKey(columns[..n], i, k) && columns[..n][i] == m'[k]
    ensures exists i :: IsRightmostWithKey(columns, i, k) && columns[i] == m'[k]
  {
    var prefix := columns[..n];
    var i :| IsRightmostWithKey(prefix, i, k) && prefix[i] == m'[k];
    assert IsRightmostWithKey(columns, i, k) by {
      forall j | i < j < |columns| ensures NormalizeColname(columns[j]) != k {
        if j < n {
          assert columns[j] == prefix[j];
        }
      }
    }
  }

  /** The loop over the preferred set: the first spelling, in iteration order, that
      is a key of the index. */
  function FirstPass(index: map<string, string>, order: seq<string>): (r: Option<string>)
    ensures r.None? <==> forall k :: 0 <= k < |order| ==> order[k] !in index
    ensures r.Some? ==> exists k :: && 0 <= k < |order| && order[k] in index
                                    && r.value == index[order[k]]
                                    && forall j :: 0 <= j < k ==> order[j] !in index
    decreases |order|
  {
    if order == [] then None
    else if order[0] in index then Some(index[order[0]])
    else
      var r := FirstPass(index, order[1..]);
      assert r.Some? ==> exists k :: && 0 <= k < |order| && order[k] in index
                                    && r.value == index[order[k]]
                                    && forall j :: 0 <= j < k ==> order[j] !in index by {
        if r.Some? {
          var k :| && 0 <= k < |order[1..]| && order[1..][k] in index
                   && r.value == index[order[1..][k]]
                   && forall j :: 0 <= j < k ==> order[1..][j] !in index;
          assert order[k + 1] == order[1..][k];
          forall j | 0 <= j < k + 1 ensures order[j] !in index {
            if j > 0 {
              assert order[j] == order[1..][j - 1];
            }
          }
        }
      }
      assert r.None? ==> forall k :: 0 <= k < |order| ==> order[k] !in index by {
        if r.None? {
          forall k | 0 <= k < |order| ensures order[k] !in index {
            if k > 0 {
              assert order[k] == order[1..][k - 1];
            }
          }
        }
      }
      r
  }

  /** The fallback loop over the columns: the leftmost column whose normalised name
      contains both `acct` and `id`. */
  function SecondPass(columns: seq<string>): (r: Option<string>)
    ensures r.None? <==> forall i :: 0 <= i < |columns| ==> !IsFallbackName(NormalizeColname(columns[i]))
    ensures r.Some? ==> exists i :: IsLeftmostFallback(columns, i) && r.value == columns[i]
    decreases |columns|
  {
    if columns == [] then None
    else if IsFallbackName(NormalizeColname(columns[0])) then
      assert IsLeftmostFallback(columns, 0);
      Some(columns[0])
    else
      var r := SecondPass(columns[1..]);
      assert r.Some? ==> exists i :: IsLeftmostFallback(columns, i) && r.value == columns[i] by {
        if r.Some? {
          var i :| IsLeftmostFallback(columns[1..], i) && r.value == columns[1..][i];
          assert columns[i + 1] == columns[1..][i];
          assert IsLeftmostFallback(columns, i + 1) by {
            forall j | 0 <= j < i + 1 ensures !IsFallbackName(NormalizeColname(columns[j])) {
              if j > 0 {
                assert columns[j] == columns[1..][j - 1];
              }
            }
          }
        }
      }
      assert r.None? ==> forall i :: 0 <= i < |columns| ==> !IsFallbackName(NormalizeColname(columns[i])) by {
        if r.None? {
          forall i | 0 <= i < |columns| ensures !IsFallbackName(NormalizeColname(columns[i])) {
            if i > 0 {
              assert columns[i] == columns[1..][i - 1];
            }
          }
        }
      }
      r
  }

  /** Some column normalises to one of the preferred spellings. */
  predicate HasPreferredKey(columns: seq<string>) {
    exists i :: 0 <= i < |columns| && NormalizeColname(columns[i]) in Preferred
  }

  /** No column passes the fallback test. */
  predicate NoFallback(columns: seq<string>) {
    forall i :: 0 <= i < |columns| ==> !IsFallbackName(NormalizeColname(columns[i]))
  }

  /** What `pick_acct_column` may return under SOME iteration order of the
      preferred set: when a column normalises to a preferred spelling, the
      rightmost column carrying such a key; otherwise the leftmost column
      passing the fallback test; otherwise nothing. */
  predicate AcceptablePick(columns: seq<string>, r: Option<string>)
    ensures AcceptablePick(columns, r) ==> (r.Some? ==> r.value in columns)
    ensures AcceptablePick(columns, r) ==> (r.None? <==> !HasPreferredKey(columns) && NoFallback(columns))
  {
    if HasPreferredKey(columns) then
      exists i :: && 0 <= i < |columns| && NormalizeColname(columns[i]) in Preferred
                  && IsRightmostWithKey(columns, i, NormalizeColname(columns[i]))
                  && r == Some(columns[i])
    else if NoFallback(columns) then
      r == None
    else
      exists i :: 0 <= i < |columns| && IsLeftmostFallback(columns, i) && r == Some(columns[i])
  }

  /** `pick_acct_column(columns)` when the preferred set iterates in `order`. */
  function PickAcctColumn(columns: seq<string>, order: seq<string>): (r: Option<string>)
    requires IsHashOrder(order)
    ensures r.Some? ==> r.value in columns
    ensures r.None? <==> !HasPreferredKey(columns) && NoFallback(columns)
    ensures AcceptablePick(columns, r)
  {
    var index := NormalizedIndex(columns);
    NormalizedIndexKeys(columns);
    NormalizedIndexRightmost(columns);
    var first := FirstPass(index, order);
    if first.Some? then
      assert HasPreferredKey(columns) && AcceptablePick(columns, first) by {
        var k :| 0 <= k < |order| && order[k] in index && first.value == index[order[k]];
        var i :| IsRightmostWithKey(columns, i, order[k]) && columns[i] == index[order[k]];
        assert order[k] in Preferred;
      }
      first
    else
      assert !HasPreferredKey(columns);
      SecondPass(columns)
  }

  /** Two columns that are each the rightmost with the same key are the same column. */
  lemma RightmostUnique(columns: seq<string>, i1: int, i2: int, k: string)
    requires IsRightmostWithKey(columns, i1, k) && IsRightmostWithKey(columns, i2, k)
    ensures i1 == i2
  {
  }

  /** Two columns that are each the leftmost passing the fallback test are the same column. */
  lemma LeftmostUnique(columns: seq<string>, i1: int, i2: int)
    requires IsLeftmostFallback(columns, i1) && IsLeftmostFallback(columns, i2)
    ensures i1 == i2
  {
  }

  /** The iteration order of the preferred set matters only when both
      `acctid` and `accountid` occur as keys: otherwise there is exactly one
      acceptable answer. */
  lemma AcceptablePickUnique(columns: seq<string>, r1: Option<string>, r2: Option<string>)
    requires AcceptablePick(columns, r1) && AcceptablePick(columns, r2)
    requires !(HasKey(columns, "acctid") && HasKey(columns, "accountid"))
    ensures r1 == r2
  {
    if HasPreferredKey(columns) {
      var i1 :| && 0 <= i1 < |columns| && NormalizeColname(columns[i1]) in Preferred
                && IsRightmostWithKey(columns, i1, NormalizeColname(columns[i1]))
                && r1 == Some(columns[i1]);
      var i2 :| && 0 <= i2 < |columns| && NormalizeColname(columns[i2]) in Preferred
                && IsRightmostWithKey(columns, i2, NormalizeColname(columns[i2]))
                && r2 == Some(columns[i2]);
      UnderscoredSpellingsNeverMatch(columns[i1]);
      UnderscoredSpellingsNeverMatch(columns[i2]);
      assert HasKey(columns, NormalizeColname(columns[i1]));
      assert HasKey(columns, NormalizeColname(columns[i2]));
      RightmostUnique(columns, i1, i2, NormalizeColname(columns[i1]));
    } else if !NoFallback(columns) {
      var i1 :| 0 <= i1 < |columns| && IsLeftmostFallback(columns, i1) && r1 == Some(columns[i1]);
      var i2 :| 0 <= i2 < |columns| && IsLeftmostFallback(columns, i2) && r2 == Some(columns[i2]);
      LeftmostUnique(columns, i1, i2);
    }
  }

  /** Unless both `acctid` and `accountid` occur as keys, the result does not
      depend on the hash order of the preferred set. */
  lemma PickIgnoresOrderUnlessBothKeys(columns: seq<string>, o1: seq<string>, o2: seq<string>)
    requires IsHashOrder(o1) && IsHashOrder(o2)
    requires !(HasKey(columns, "acctid") && HasKey(columns, "accountid"))
    ensures PickAcctColumn(columns, o1) == PickAcctColumn(columns, o2)
  {
    AcceptablePickUnique(columns, PickAcctColumn(columns, o1), PickAcctColumn(columns, o2));
  }

  /** When exactly one column normalises to a preferred spelling, that
      column is the answer under every hash order. */
  lemma PickSolePreferred(columns: seq<string>, order: seq<string>, i: int)
    requires IsHashOrder(order)
    requires 0 <= i < |columns| && NormalizeColname(columns[i]) in Preferred
    requires forall j :: 0 <= j < |columns| && j != i ==> NormalizeColname(columns[j]) !in Preferred
    ensures PickAcctColumn(columns, order) == Some(columns[i])
  {
    var r := PickAcctColumn(columns, order);
    assert HasPreferredKey(columns);
    var i' :| && 0 <= i' < |columns| && NormalizeColname(columns[i']) in Preferred
              && IsRightmostWithKey(columns, i', NormalizeColname(columns[i']))
              && r == Some(columns[i']);
  }

  /** The order in which the preferred set hands out `acctid` first. */
  const AcctIdFirst: seq<string> := ["acctid", "accountid", "acct_id", "account_id"]

  /** The order in which the preferred set hands out `accountid` first. */
  const AccountIdFirst: seq<string> := ["accountid", "acctid", "acct_id", "account_id"]

  lemma HashOrderWitnesses()
    ensures IsHashOrder(AcctIdFirst) && IsHashOrder(AccountIdFirst)
  {
    assert AcctIdFirst[0] != AcctIdFirst[1] && AcctIdFirst[0] != AcctIdFirst[2];
  }

  /** Every acceptable answer is what `pick_acct_column` returns under some
      hash order: the relation is no looser than the code. */
  lemma AcceptablePickReachable(columns: seq<string>, r: Option<string>)
    requires AcceptablePick(columns, r)
    ensures exists order :: IsHashOrder(order) && PickAcctColumn(columns, order) == r
  {
    HashOrderWitnesses();
    if HasPreferredKey(columns) {
      var i :| && 0 <= i < |columns| && NormalizeColname(columns[i]) in Preferred
               && IsRightmostWithKey(columns, i, NormalizeColname(columns[i]))
               && r == Some(columns[i]);
      var k := NormalizeColname(columns[i]);
      UnderscoredSpellingsNeverMatch(columns[i]);
      var order := if k == "acctid" then AcctIdFirst else AccountIdFirst;
      assert order[0] == k;
      var index := NormalizedIndex(columns);
      NormalizedIndexKeys(columns);
      NormalizedIndexRightmost(columns);
      assert HasKey(columns, k);
      var i' :| IsRightmostWithKey(columns, i', k) && columns[i'] == index[k];
      RightmostUnique(columns, i, i', k);
      assert FirstPass(index, order) == Some(index[k]);
      assert PickAcctColumn(columns, order) == r;
    } else {
      var other := PickAcctColumn(columns, AcctIdFirst);
      if !NoFallback(columns) {
        var i1 :| 0 <= i1 < |columns| && IsLeftmostFallback(columns, i1) && r == Some(columns[i1]);
        var i2 :| 0 <= i2 < |columns| && IsLeftmostFallback(columns, i2) && other == Some(columns[i2]);
        LeftmostUnique(columns, i1, i2);
      }
      assert PickAcctColumn(columns, AcctIdFirst) == r;
    }
  }

  /** With both an `ACCT_ID` and an `AccountID` column the answer depends
      on the hash order: handing out `acctid` first picks `ACCT_ID` ... */
  lemma PickAcctIdFirst()
    ensures PickAcctColumn(BothKeys, AcctIdFirst) == Some("ACCT_ID")
  {
    HashOrderWitnesses();
    BothKeysIndex();
    var index := NormalizedIndex(BothKeys);
    assert AcctIdFirst[0] in index;
    assert FirstPass(index, AcctIdFirst) == Some("ACCT_ID");
  }

  /** ... and handing out `accountid` first picks `AccountID`. */
  lemma PickAccountIdFirst()
    ensures PickAcctColumn(BothKeys, AccountIdFirst) == Some("AccountID")
  {
    HashOrderWitnesses();
    BothKeysIndex();
    var index := NormalizedIndex(BothKeys);
    assert AccountIdFirst[0] in index;
    assert FirstPass(index, AccountIdFirst) == Some("AccountID");
  }

  /** The header row of the order-dependence example. */
  const BothKeys: seq<string> := ["ACCT_ID", "AccountID"]

  lemma BothKeysIndex()
    ensures NormalizedIndex(BothKeys) == map["acctid" := "ACCT_ID", "accountid" := "AccountID"]
  {
    NormalizeAcctIdUpper();
    NormalizeAccountIdMixed();
    assert BothKeys[..1] == ["ACCT_ID"];
    assert BothKeys[..1][..0] == [];
  }

  /** `Account Number` normalises to 13 characters, so it is no preferred
      spelling. */
  lemma NormalizeAccountNumber()
    ensures |NormalizeColname("Account Number")| == 13
  {
    var a, b := "Account", "Number";
    AccountNumberWords();
    NormalizeAllAlnum(a);
    NormalizeAllAlnum(b);
    NormalizeGlue(a, " ", b);
    assert a + " " + b == "Account Number";
  }

  lemma AccountNumberWords()
    ensures All("Account", IsAsciiAlnum) && All("Number", IsAsciiAlnum)
  {
    var a, b := "Account", "Number";
    forall k | 0 <= k < |a| ensures IsAsciiAlnum(a[k]) {
    }
    forall k | 0 <= k < |b| ensures IsAsciiAlnum(b[k]) {
    }
  }

  /** The header row of the first resolver example. */
  const IdAndName: seq<string> := ["ACCT_Id", "Name"]

  lemma IdAndNameKeys()
    ensures NormalizeColname(IdAndName[0]) == "acctid"
    ensures NormalizeColname(IdAndName[1]) !in Preferred
  {
    assert IdAndName[0] == "ACCT_Id";
    NormalizeUnderscored();
    NormalizeShape(IdAndName[1]);
    ShortNameNotPreferred(NormalizeColname(IdAndName[1]));
  }

  lemma ShortNameNotPreferred(n: string)
    requires |n| < 6
    ensures n !in Preferred
  {
  }

  /** The first resolver example: `ACCT_Id` is found by the first pass,
      whatever the hash order. */
  lemma ResolverExampleUnderscored(order: seq<string>)
    requires IsHashOrder(order)
    ensures PickAcctColumn(IdAndName, order) == Some("ACCT_Id")
  {
    IdAndNameKeys();
    PickSolePreferred(IdAndName, order, 0);
  }

  /** The header row of the second resolver example. */
  const NumberAndId: seq<string> := ["Account Number", "AcctID"]

  lemma NumberAndIdKeys()
    ensures NormalizeColname(NumberAndId[0]) !in Preferred
    ensures NormalizeColname(NumberAndId[1]) == "acctid"
  {
    NumberNotPreferred();
    NormalizeAcctIdMixed();
  }

  lemma NumberNotPreferred()
    ensures NormalizeColname(NumberAndId[0]) !in Preferred
  {
    assert NumberAndId[0] == "Account Number";
    NormalizeAccountNumber();
    LongNameNotPreferred(NormalizeColname(NumberAndId[0]));
  }

  lemma LongNameNotPreferred(n: string)
    requires |n| > 10
    ensures n !in Preferred
  {
  }

  /** The second resolver example: `Account Number` is no preferred spelling,
      and `AcctID` is. */
  lemma ResolverExampleMixed(order: seq<string>)
    requires IsHashOrder(order)
    ensures PickAcctColumn(NumberAndId, order) == Some("AcctID")
  {
    NumberAndIdKeys();
    assert |NumberAndId| == 2;
    assert forall j :: 0 <= j < |NumberAndId| && j != 1 ==> NormalizeColname(NumberAndId[j]) !in Preferred by {
      forall j | 0 <= j < |NumberAndId| && j != 1 ensures NormalizeColname(NumberAndId[j]) !in Preferred {
        assert j == 0;
      }
    }
    PickSolePreferred(NumberAndId, order, 1);
  }

  /** The header row of the third resolver example. */
  const FooBar: seq<string> := ["foo", "bar"]

  /** The third resolver example: no header looks like an account id. */
  lemma ResolverExampleNone(order: seq<string>)
    requires IsHashOrder(order)
    ensures PickAcctColumn(FooBar, order) == None
  {
    forall i | 0 <= i < |FooBar|
      ensures !IsFallbackName(NormalizeColname(FooBar[i]))
      ensures NormalizeColname(FooBar[i]) !in Preferred
    {
      NormalizeShape(FooBar[i]);
      ShortNameNotPreferred(NormalizeColname(FooBar[i]));
      ShortNameNoAcct(NormalizeColname(FooBar[i]));
    }
    assert !HasPreferredKey(FooBar) && NoFallback(FooBar);
  }

  lemma ShortNameNoAcct(n: string)
    requires |n| < 4
    ensures !IsFallbackName(n)
  {
  }
}
