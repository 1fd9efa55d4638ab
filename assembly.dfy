/** Final assembly: the original matches and the retry matches are
    concatenated in that order, only the rows flagged as best match are kept
    (without the flag), and the first row of each search term is kept. */
module Assembly {
  import opened Wrappers
  import opened Catalog
  import opened Matching

  /** `df[df['is_best_match'] == True].drop(columns=['is_best_match'])`: the rows
      flagged true, in order; an unset flag counts as not true. */
  function BestRows(cs: seq<Candidate>): (rows: seq<Row>)
    ensures |rows| <= |cs|
  {
    if cs == [] then []
    else
      var n := |cs| - 1;
      BestRows(cs[..n]) + (if cs[n].isBestMatch == Some(true) then [cs[n].row] else [])
  }

  /** `drop_duplicates(subset=['search_term'], keep='first')`. */
  function DedupBySearchTerm(rows: seq<Row>): (kept: seq<Row>)
    ensures |kept| <= |rows|
  {
    if rows == [] then []
    else
      var n := |rows| - 1;
      DedupBySearchTerm(rows[..n]) + (if rows[n].searchTerm in Terms(rows[..n]) then [] else [rows[n]])
  }

  /** The table the run offers for download. */
  function FinalTable(original: seq<Candidate>, retry: seq<Candidate>): (rows: seq<Row>)
    ensures |rows| <= |original| + |retry|
  {
    DedupBySearchTerm(BestRows(original + retry))
  }

  /* ---------------- Filtering ---------------- */

  lemma {:induction false} BestRowsAppend(a: seq<Candidate>, b: seq<Candidate>)
    ensures BestRows(a + b) == BestRows(a) + BestRows(b)
    decreases |b|
  {
    if b == [] {
      assert a + b == a;
    } else {
      var n := |b| - 1;
      assert (a + b)[..|a + b| - 1] == a + b[..n];
      BestRowsAppend(a, b[..n]);
    }
  }

  /** The filter keeps exactly the rows flagged true. */
  lemma {:induction false} BestRowsMembers(cs: seq<Candidate>)
    ensures forall r | r in BestRows(cs) :: exists i | 0 <= i < |cs| :: cs[i] == Candidate(r, Some(true))
    ensures forall i | 0 <= i < |cs| && cs[i].isBestMatch == Some(true) :: cs[i].row in BestRows(cs)
  {
    if cs != [] {
      var n := |cs| - 1;
      BestRowsMembers(cs[..n]);
      assert forall i | 0 <= i < n :: cs[..n][i] == cs[i];
    }
  }

  /* ---------------- Deduplication ---------------- */

  /** The first row with a term is the row at the first index carrying it. */
  lemma FirstWithAt(rows: seq<Row>, term: string, i: nat)
    requires i < |rows| && rows[i].searchTerm == term
    requires forall j | 0 <= j < i :: rows[j].searchTerm != term
    ensures term in Terms(rows) && FirstWith(rows, term) == rows[i]
  {
    var r := FirstWith(rows, term);
    var i' :| 0 <= i' < |rows| && rows[i'] == r && forall j | 0 <= j < i' :: rows[j].searchTerm != term;
    assert i' == i;
  }

  /** The first row with a term does not change when rows are added after it. */
  lemma FirstWithPrefix(rows: seq<Row>, m: nat, term: string)
    requires m <= |rows|
    requires term in Terms(rows[..m])
    ensures term in Terms(rows)
    ensures FirstWith(rows, term) == FirstWith(rows[..m], term)
  {
    var r := FirstWith(rows[..m], term);
    var i :| 0 <= i < m && rows[..m][i] == r && forall k | 0 <= k < i :: rows[..m][k].searchTerm != term;
    assert forall k | 0 <= k < m :: rows[..m][k] == rows[k];
    FirstWithAt(rows, term, i);
  }

  /** Rows put in front of a table do not change its first row with a term
      they do not carry. */
  lemma FirstWithAfter(a: seq<Row>, b: seq<Row>, term: string)
    requires term !in Terms(a) && term in Terms(b)
    ensures term in Terms(a + b) && FirstWith(a + b, term) == FirstWith(b, term)
  {
    var r := FirstWith(b, term);
    var i :| 0 <= i < |b| && b[i] == r && forall k | 0 <= k < i :: b[k].searchTerm != term;
    forall j | 0 <= j < |a| + i
      ensures (a + b)[j].searchTerm != term
    {
      if j >= |a| {
        assert (a + b)[j] == b[j - |a|];
      }
    }
    FirstWithAt(a + b, term, |a| + i);
  }

  /** Deduplication loses no search term. */
  lemma {:induction false} DedupTerms(rows: seq<Row>)
    ensures Terms(DedupBySearchTerm(rows)) == Terms(rows)
  {
    if rows != [] {
      var n := |rows| - 1;
      var d := DedupBySearchTerm(rows[..n]);
      DedupTerms(rows[..n]);
      TermsOfLast(rows);
      if rows[n].searchTerm !in Terms(rows[..n]) {
        var d' := d + [rows[n]];
        assert DedupBySearchTerm(rows) == d';
        TermsOfLast(d');
        assert d'[..|d'| - 1] == d;
      } else {
        assert DedupBySearchTerm(rows) == d;
      }
    }
  }

  /** Deduplication keeps at most one row per search term. */
  lemma {:induction false} DedupDistinct(rows: seq<Row>)
    ensures forall i, j | 0 <= i < j < |DedupBySearchTerm(rows)| ::
              DedupBySearchTerm(rows)[i].searchTerm != DedupBySearchTerm(rows)[j].searchTerm
  {
    if rows != [] {
      var n := |rows| - 1;
      var d := DedupBySearchTerm(rows[..n]);
      DedupDistinct(rows[..n]);
      if rows[n].searchTerm !in Terms(rows[..n]) {
        DedupTerms(rows[..n]);
        assert forall i | 0 <= i < |d| :: d[i].searchTerm in Terms(d);
        assert DedupBySearchTerm(rows) == d + [rows[n]];
      } else {
        assert DedupBySearchTerm(rows) == d;
      }
    }
  }

  /** Each row deduplication keeps is the first row of the input with its
      search term. */
  lemma {:induction false} DedupKeepsFirst(rows: seq<Row>)
    ensures forall k | 0 <= k < |DedupBySearchTerm(rows)| ::
              DedupBySearchTerm(rows)[k].searchTerm in Terms(rows) &&
              DedupBySearchTerm(rows)[k] == FirstWith(rows, DedupBySearchTerm(rows)[k].searchTerm)
  {
    if rows != [] {
      var n := |rows| - 1;
      var front := rows[..n];
      var d := DedupBySearchTerm(front);
      DedupKeepsFirst(front);
      forall k | 0 <= k < |d|
        ensures d[k].searchTerm in Terms(rows) && d[k] == FirstWith(rows, d[k].searchTerm)
      {
        FirstWithPrefix(rows, n, d[k].searchTerm);
      }
      if rows[n].searchTerm !in Terms(front) {
        FirstWithAt(rows, rows[n].searchTerm, n);
      }
    }
  }

  /* ---------------- The final table ---------------- */

  /** The positions of the rows deduplication keeps: the first row of each
      search term. */
  function KeptPositions(rows: seq<Row>): seq<nat>
  {
    if rows == [] then []
    else
      var n := |rows| - 1;
      KeptPositions(rows[..n]) + (if rows[n].searchTerm in Terms(rows[..n]) then [] else [n])
  }

  /** Deduplication keeps rows in input order: the kept rows are the input rows
      at strictly increasing positions. */
  lemma {:induction false} DedupInOrder(rows: seq<Row>)
    ensures |KeptPositions(rows)| == |DedupBySearchTerm(rows)|
    ensures forall k | 0 <= k < |KeptPositions(rows)| ::
              KeptPositions(rows)[k] < |rows| && DedupBySearchTerm(rows)[k] == rows[KeptPositions(rows)[k]]
    ensures forall k, l | 0 <= k < l < |KeptPositions(rows)| :: KeptPositions(rows)[k] < KeptPositions(rows)[l]
  {
    if rows != [] {
      var n := |rows| - 1;
      DedupInOrder(rows[..n]);
      assert forall k | 0 <= k < n :: rows[..n][k] == rows[k];
    }
  }

  /** Every row of the final table was flagged true in the original or the
      retry table, and no two rows share a search term. */
  lemma FinalTableRows(original: seq<Candidate>, retry: seq<Candidate>)
    ensures forall i, j | 0 <= i < j < |FinalTable(original, retry)| ::
              FinalTable(original, retry)[i].searchTerm != FinalTable(original, retry)[j].searchTerm
    ensures forall r | r in FinalTable(original, retry) ::
              exists i | 0 <= i < |original + retry| :: (original + retry)[i] == Candidate(r, Some(true))
  {
    var best := BestRows(original + retry);
    DedupDistinct(best);
    DedupSubset(best);
    BestRowsMembers(original + retry);
  }

  /** Deduplication only drops rows. */
  lemma {:induction false} DedupSubset(rows: seq<Row>)
    ensures forall r | r in DedupBySearchTerm(rows) :: r in rows
  {
    if rows != [] {
      var n := |rows| - 1;
      DedupSubset(rows[..n]);
      assert forall r | r in rows[..n] :: r in rows;
    }
  }

  /** The final table holds a row for a search term exactly when some row of
      the original or the retry table with that term is flagged true. */
  lemma FinalTerms(original: seq<Candidate>, retry: seq<Candidate>)
    ensures Terms(FinalTable(original, retry)) == Terms(BestRows(original) + BestRows(retry))
  {
    BestRowsAppend(original, retry);
    DedupTerms(BestRows(original + retry));
  }

  /** The final row of a search term with an original match is the first
      original match: a match found before the retry wins over one found by
      it. */
  lemma PreRetryMatchWins(original: seq<Candidate>, retry: seq<Candidate>, term: string)
    requires term in Terms(BestRows(original))
    ensures FirstWith(BestRows(original), term) in FinalTable(original, retry)
  {
    var a, b := BestRows(original), BestRows(retry);
    BestRowsAppend(original, retry);
    var best := a + b;
    assert best[..|a|] == a;
    FirstWithPrefix(best, |a|, term);
    FinalRowIsFirst(best, term);
  }

  /** The final row of a search term without an original match is its first
      retry match. */
  lemma RetryMatchFillsGap(original: seq<Candidate>, retry: seq<Candidate>, term: string)
    requires term !in Terms(BestRows(original)) && term in Terms(BestRows(retry))
    ensures FirstWith(BestRows(retry), term) in FinalTable(original, retry)
  {
    var a, b := BestRows(original), BestRows(retry);
    BestRowsAppend(original, retry);
    FirstWithAfter(a, b, term);
    FinalRowIsFirst(a + b, term);
  }

  /** The row deduplication keeps for a term of its input is the input's first
      row with the term. */
  lemma FinalRowIsFirst(rows: seq<Row>, term: string)
    requires term in Terms(rows)
    ensures FirstWith(rows, term) in DedupBySearchTerm(rows)
  {
    DedupTerms(rows);
    DedupKeepsFirst(rows);
    var d := DedupBySearchTerm(rows);
    var k :| 0 <= k < |d| && d[k].searchTerm == term;
  }
}
