/** `pick_top_headers` (Data/preprocessing.py): canonicalise the counted raw
    headers, drop the short ones, add up the counts of raw spellings that share a
    canonical form, order by that total (largest first) and keep the first `top_k`. */
module TopHeaders {
  import opened Text
  import opened Collections
  import opened Preprocessing

  /** A table row: a header and a count. */
  type Row = (string, nat)

  function Keys(rows: seq<Row>): (ks: seq<string>)
    ensures |ks| == |rows|
    ensures forall k :: 0 <= k < |rows| ==> ks[k] == rows[k].0
  {
    seq(|rows|, k requires 0 <= k < |rows| => rows[k].0)
  }

  /** `hdr_df["header"].map(f)`: every header replaced by its image under `f`,
      with its count. */
  function Rekey(rows: seq<Row>, f: string -> string): (r: seq<Row>)
    ensures |r| == |rows|
    ensures forall k :: 0 <= k < |rows| ==> r[k] == (f(rows[k].0), rows[k].1)
  {
    seq(|rows|, k requires 0 <= k < |rows| => (f(rows[k].0), rows[k].1))
  }

  /** `hdr_df["canon"] = hdr_df["header"].map(canon_header)` */
  function Canonicalised(counts: seq<Row>): seq<Row> {
    Rekey(counts, CanonHeader)
  }

  /** `hdr_df[hdr_df["canon"].str.len() >= min_header_len]`: the rows whose header
      is at least `minLen` long, in order. */
  function LongEnough(rows: seq<Row>, minLen: int): (r: seq<Row>)
    ensures forall k :: 0 <= k < |r| ==> |r[k].0| >= minLen
  {
    if rows == [] then []
    else
      var rest := LongEnough(rows[..|rows| - 1], minLen);
      var last := rows[|rows| - 1];
      if |last.0| >= minLen then rest + [last] else rest
  }

  /** The total count of the rows whose header is `c` (the `groupby(...).sum()` cell). */
  function Score(rows: seq<Row>, c: string): nat {
    if rows == [] then 0
    else
      var last := rows[|rows| - 1];
      Score(rows[..|rows| - 1], c) + (if last.0 == c then last.1 else 0)
  }

  /** `groupby("canon").sum()`: one row per distinct header, holding its total. */
  function Aggregate(rows: seq<Row>): (t: seq<Row>)
    ensures |t| == |Dedup(Keys(rows))|
    ensures forall k :: 0 <= k < |t| ==> t[k] == (Dedup(Keys(rows))[k], Score(rows, Dedup(Keys(rows))[k]))
  {
    var ks := Dedup(Keys(rows));
    seq(|ks|, k requires 0 <= k < |ks| => (ks[k], Score(rows, ks[k])))
  }

  /** Counts never increase along the table. */
  predicate SortedDesc(t: seq<Row>) {
    forall i, j :: 0 <= i < j < |t| ==> t[i].1 >= t[j].1
  }

  /** Place `x` before the first row whose count is not larger than its own. */
  function Insert(x: Row, s: seq<Row>): (r: seq<Row>)
    requires SortedDesc(s)
    ensures SortedDesc(r)
    ensures multiset(r) == multiset(s) + multiset{x}
    ensures |r| == |s| + 1
  {
    if s == [] || x.1 >= s[0].1 then
      SortedCons(x, s);
      [x] + s
    else
      SortedTail(s);
      var r0 := Insert(x, s[1..]);
      assert s == [s[0]] + s[1..];
      InsertHead(s[0], r0, s[1..], x);
      [s[0]] + r0
  }

  lemma SortedCons(x: Row, s: seq<Row>)
    requires SortedDesc(s) && (s == [] || x.1 >= s[0].1)
    ensures SortedDesc([x] + s)
  {
    var r := [x] + s;
    forall i, j | 0 <= i < j < |r| ensures r[i].1 >= r[j].1 {
      assert r[j] == s[j - 1];
      if i > 0 {
        assert r[i] == s[i - 1];
      } else if j > 1 {
        assert s[0].1 >= s[j - 1].1;
      }
    }
  }

  lemma SortedTail(s: seq<Row>)
    requires SortedDesc(s) && s != []
    ensures SortedDesc(s[1..])
    ensures forall k :: 0 <= k < |s| - 1 ==> s[0].1 >= s[1..][k].1
  {
    var t := s[1..];
    forall i, j | 0 <= i < j < |t| ensures t[i].1 >= t[j].1 {
      assert t[i] == s[i + 1] && t[j] == s[j + 1];
    }
    forall k | 0 <= k < |t| ensures s[0].1 >= t[k].1 {
      assert t[k] == s[k + 1];
    }
  }

  lemma InsertHead(h: Row, r0: seq<Row>, s0: seq<Row>, x: Row)
    requires SortedDesc(r0) && multiset(r0) == multiset(s0) + multiset{x}
    requires forall k :: 0 <= k < |s0| ==> h.1 >= s0[k].1
    requires h.1 >= x.1
    ensures SortedDesc([h] + r0)
  {
    forall y | y in r0 ensures h.1 >= y.1 {
      assert y in multiset(r0);
      if y != x {
        assert y in multiset(s0);
        assert y in s0;
      }
    }
  }

  /** `sort_values("count", ascending=False)`: the same rows, counts non-increasing. */
  function SortDesc(t: seq<Row>): (r: seq<Row>)
    ensures SortedDesc(r)
    ensures multiset(r) == multiset(t)
    ensures |r| == |t|
  {
    if t == [] then []
    else
      assert t == [t[0]] + t[1..];
      Insert(t[0], SortDesc(t[1..]))
  }

  /** The ordered table of totals over the rows at least `minLen` long. */
  function Table(rows: seq<Row>, minLen: int): seq<Row> {
    SortDesc(Aggregate(LongEnough(rows, minLen)))
  }

  /** `head(k)["canon"].tolist()`: the headers of the first `k` rows, with Python's
      slicing (a negative `k` drops that many rows from the end). */
  function Select(t: seq<Row>, k: int): seq<string> {
    Keys(t[..PrefixLen(|t|, k)])
  }

  /** `pick_top_headers` */
  function PickTopHeaders(counts: seq<Row>, cfg: AddInfoConfig): seq<string> {
    Select(Table(Canonicalised(counts), cfg.minHeaderLen), cfg.topK)
  }

  /** The total of `c` over the headers that `f` sends to `c`. */
  function Total(counts: seq<Row>, f: string -> string, c: string): nat {
    if counts == [] then 0
    else
      var last := counts[|counts| - 1];
      Total(counts[..|counts| - 1], f, c) + (if f(last.0) == c then last.1 else 0)
  }

  // ---------------------------------------------------------------------
  // The filtered and grouped table
  // ---------------------------------------------------------------------

  lemma {:induction false} LongEnoughKeys(rows: seq<Row>, minLen: int, c: string)
    ensures c in Keys(LongEnough(rows, minLen)) <==> |c| >= minLen && c in Keys(rows)
  {
    if rows != [] {
      var pre := rows[..|rows| - 1];
      var last := rows[|rows| - 1];
      LongEnoughKeys(pre, minLen, c);
      KeysAppend(pre, last);
      assert rows == pre + [last];
      if |last.0| >= minLen {
        KeysAppend(LongEnough(pre, minLen), last);
      }
    }
  }

  lemma KeysAppend(rows: seq<Row>, r: Row)
    ensures Keys(rows + [r]) == Keys(rows) + [r.0]
  {
  }

  /** Dropping short rows leaves the total of a long enough header unchanged. */
  lemma {:induction false} LongEnoughScore(rows: seq<Row>, minLen: int, c: string)
    ensures |c| >= minLen ==> Score(LongEnough(rows, minLen), c) == Score(rows, c)
  {
    if rows != [] {
      var pre := rows[..|rows| - 1];
      var last := rows[|rows| - 1];
      LongEnoughScore(pre, minLen, c);
      if |last.0| >= minLen {
        ScoreAppend(LongEnough(pre, minLen), last, c);
      }
    }
  }

  lemma ScoreAppend(rows: seq<Row>, r: Row, c: string)
    ensures Score(rows + [r], c) == Score(rows, c) + (if r.0 == c then r.1 else 0)
  {
    assert (rows + [r])[..|rows|] == rows;
  }

  /** Every row of the ordered table is a long enough header with its total, every
      long enough header has a row, and no header has two. */
  lemma TableRows(rows: seq<Row>, minLen: int)
    ensures var t := Table(rows, minLen);
      (forall k :: 0 <= k < |t| ==> |t[k].0| >= minLen && t[k].0 in Keys(rows) && t[k].1 == Score(rows, t[k].0))
      && (forall c :: |c| >= minLen && c in Keys(rows) ==> c in Keys(t))
      && NoDups(Keys(t))
  {
    TableSound(rows, minLen);
    TableComplete(rows, minLen);
    TableNoDups(rows, minLen);
  }

  lemma TableSound(rows: seq<Row>, minLen: int)
    ensures var t := Table(rows, minLen);
      forall k :: 0 <= k < |t| ==> |t[k].0| >= minLen && t[k].0 in Keys(rows) && t[k].1 == Score(rows, t[k].0)
  {
    var long := LongEnough(rows, minLen);
    var t := Table(rows, minLen);
    forall k | 0 <= k < |t| ensures |t[k].0| >= minLen && t[k].0 in Keys(rows) && t[k].1 == Score(rows, t[k].0) {
      AggregateRow(long, t[k]);
      LongEnoughKeys(rows, minLen, t[k].0);
      LongEnoughScore(rows, minLen, t[k].0);
    }
  }

  lemma TableComplete(rows: seq<Row>, minLen: int)
    ensures forall c :: |c| >= minLen && c in Keys(rows) ==> c in Keys(Table(rows, minLen))
  {
    var long := LongEnough(rows, minLen);
    var t := Table(rows, minLen);
    forall c | |c| >= minLen && c in Keys(rows) ensures c in Keys(t) {
      LongEnoughKeys(rows, minLen, c);
      AggregateHas(long, c, t);
    }
  }

  lemma TableNoDups(rows: seq<Row>, minLen: int)
    ensures NoDups(Keys(Table(rows, minLen)))
  {
    var long := LongEnough(rows, minLen);
    var a := Aggregate(long);
    var t := SortDesc(a);
    AggregateNoDups(long);
    PermNoDups(a, t);
    forall k | 0 <= k < |t| ensures t[k].1 == Score(long, t[k].0) {
      AggregateRow(long, t[k]);
    }
    KeyedNoDups(t, long);
  }

  lemma AggregateRow(rows: seq<Row>, e: Row)
    ensures e in multiset(Aggregate(rows)) ==> e.0 in Keys(rows) && e.1 == Score(rows, e.0)
  {
    if e in multiset(Aggregate(rows)) {
      var a := Aggregate(rows);
      var m :| 0 <= m < |a| && a[m] == e;
    }
  }

  lemma AggregateHas(rows: seq<Row>, c: string, t: seq<Row>)
    requires multiset(t) == multiset(Aggregate(rows))
    ensures c in Keys(rows) ==> c in Keys(t)
  {
    if c in Keys(rows) {
      var a := Aggregate(rows);
      var ks := Dedup(Keys(rows));
      var m :| 0 <= m < |ks| && ks[m] == c;
      assert a[m] in multiset(t);
      var k :| 0 <= k < |t| && t[k] == a[m];
      assert Keys(t)[k] == c;
    }
  }

  lemma AggregateNoDups(rows: seq<Row>)
    ensures NoDups(Aggregate(rows))
  {
  }

  /** A permutation of a duplicate-free table is duplicate-free. */
  lemma PermNoDups(a: seq<Row>, b: seq<Row>)
    requires multiset(a) == multiset(b) && NoDups(a)
    ensures NoDups(b)
  {
    forall i, j | 0 <= i < j < |b| ensures b[i] != b[j] {
      if b[i] == b[j] {
        assert multiset(b)[b[i]] >= 2 by {
          var x := b[i];
          assert b == b[..j] + [b[j]] + b[j + 1..];
          assert x in b[..j];
          assert multiset(b[..j])[x] >= 1;
        }
        NoDupsAtMostOnce(a, b[i]);
      }
    }
  }

  lemma {:induction false} NoDupsAtMostOnce<T>(a: seq<T>, x: T)
    requires NoDups(a)
    ensures multiset(a)[x] <= 1
  {
    if a != [] {
      var pre := a[..|a| - 1];
      assert a == pre + [a[|a| - 1]];
      assert NoDups(pre);
      NoDupsAtMostOnce(pre, x);
      if x == a[|a| - 1] {
        assert x !in pre;
      }
    }
  }

  /** Rows that each hold their header's score and are pairwise distinct have
      pairwise distinct headers. */
  lemma KeyedNoDups(t: seq<Row>, rows: seq<Row>)
    requires NoDups(t)
    requires forall k :: 0 <= k < |t| ==> t[k].1 == Score(rows, t[k].0)
    ensures NoDups(Keys(t))
  {
  }

  // ---------------------------------------------------------------------
  // Properties of the selection
  // ---------------------------------------------------------------------

  /** The selection holds no header twice, only long enough headers of the table,
      and as many as Python's `head(k)` keeps of the distinct ones. */
  lemma SelectShape(rows: seq<Row>, minLen: int, k: int)
    ensures var r := Select(Table(rows, minLen), k);
      NoDups(r)
      && (forall h :: h in r ==> |h| >= minLen && h in Keys(rows))
      && |r| == PrefixLen(|Dedup(Keys(LongEnough(rows, minLen)))|, k)
  {
    var t := Table(rows, minLen);
    TableRows(rows, minLen);
    var r := Select(t, k);
    assert forall i :: 0 <= i < |r| ==> r[i] == Keys(t)[i];
  }

  /** Every selected header has a total at least as large as that of every long
      enough header left out. */
  lemma SelectBest(rows: seq<Row>, minLen: int, k: int, h: string, g: string)
    ensures var r := Select(Table(rows, minLen), k);
      h in r && |g| >= minLen && g in Keys(rows) && g !in r ==> Score(rows, h) >= Score(rows, g)
  {
    var t := Table(rows, minLen);
    var n := PrefixLen(|t|, k);
    if h in Keys(t[..n]) && |g| >= minLen && g in Keys(rows) && g !in Keys(t[..n]) {
      TableSound(rows, minLen);
      TableComplete(rows, minLen);
      var i := InPrefix(t, n, h);
      var j := PastPrefix(t, n, g);
    }
  }

  lemma InPrefix(t: seq<Row>, n: nat, h: string) returns (i: nat)
    requires n <= |t| && h in Keys(t[..n])
    ensures i < n && t[i].0 == h
  {
    var ks := Keys(t[..n]);
    i :| 0 <= i < |ks| && ks[i] == h;
  }

  lemma PastPrefix(t: seq<Row>, n: nat, g: string) returns (j: nat)
    requires n <= |t| && g in Keys(t) && g !in Keys(t[..n])
    ensures n <= j < |t| && t[j].0 == g
  {
    var ks := Keys(t);
    j :| 0 <= j < |ks| && ks[j] == g;
  }

  /** A canonical header is eligible when it is the canonical form of a counted
      raw header and is at least `minLen` long. */
  predicate Eligible(counts: seq<Row>, minLen: int, c: string) {
    |c| >= minLen && exists k :: 0 <= k < |counts| && CanonHeader(counts[k].0) == c
  }

  lemma EligibleIsKey(counts: seq<Row>, minLen: int, c: string)
    ensures Eligible(counts, minLen, c) <==> |c| >= minLen && c in Keys(Canonicalised(counts))
  {
    var ks := Keys(Canonicalised(counts));
    if c in ks {
      var k :| 0 <= k < |ks| && ks[k] == c;
      assert CanonHeader(counts[k].0) == c;
    }
  }

  /** Grouping the re-keyed table adds up, for every key, the counts of all the
      original headers that map to it. */
  lemma {:induction false} ScoreIsTotal(counts: seq<Row>, f: string -> string, c: string)
    ensures Score(Rekey(counts, f), c) == Total(counts, f, c)
  {
    if counts != [] {
      var pre := counts[..|counts| - 1];
      var last := counts[|counts| - 1];
      ScoreIsTotal(pre, f, c);
      RekeySnoc(counts, f);
      ScoreAppend(Rekey(pre, f), (f(last.0), last.1), c);
    }
  }

  lemma RekeySnoc(counts: seq<Row>, f: string -> string)
    requires counts != []
    ensures Rekey(counts, f) == Rekey(counts[..|counts| - 1], f) + [(f(counts[|counts| - 1].0), counts[|counts| - 1].1)]
  {
  }

  /** `pick_top_headers` selects distinct eligible canonical headers, `top_k` of them
      (with Python's slicing for a `top_k` that is too large or negative). */
  lemma PickShape(counts: seq<Row>, cfg: AddInfoConfig)
    ensures var r := PickTopHeaders(counts, cfg);
      NoDups(r)
      && (forall h :: h in r ==> Eligible(counts, cfg.minHeaderLen, h))
      && |r| == PrefixLen(|Dedup(Keys(LongEnough(Canonicalised(counts), cfg.minHeaderLen)))|, cfg.topK)
  {
    var r := PickTopHeaders(counts, cfg);
    SelectShape(Canonicalised(counts), cfg.minHeaderLen, cfg.topK);
    forall h | h in r ensures Eligible(counts, cfg.minHeaderLen, h) {
      EligibleIsKey(counts, cfg.minHeaderLen, h);
    }
  }

  /** With a non-negative `top_k`, at most `top_k` headers are selected. */
  lemma PickAtMostTopK(counts: seq<Row>, cfg: AddInfoConfig)
    requires cfg.topK >= 0
    ensures |PickTopHeaders(counts, cfg)| <= cfg.topK
  {
  }

  /** Every selected header's total is at least that of every eligible header left
      out; totals add up the counts of all raw spellings. */
  lemma PickBest(counts: seq<Row>, cfg: AddInfoConfig, h: string, g: string)
    requires h in PickTopHeaders(counts, cfg)
    requires Eligible(counts, cfg.minHeaderLen, g) && g !in PickTopHeaders(counts, cfg)
    ensures Total(counts, CanonHeader, h) >= Total(counts, CanonHeader, g)
  {
    EligibleIsKey(counts, cfg.minHeaderLen, g);
    SelectBest(Canonicalised(counts), cfg.minHeaderLen, cfg.topK, h, g);
    ScoreIsTotal(counts, CanonHeader, h);
    ScoreIsTotal(counts, CanonHeader, g);
  }
}
