/** Match marking (`match_products_with_search`, `evaluate_match`): the
    candidate rows are grouped by search term, a language model is asked once
    per group for the best item name, the rows of the group are flagged in
    place, and groups the model reports as unmatched are queued for a retry.
    The language model is an oracle from (prompt, system message) to its
    answer. */
module Matching {
  import opened Wrappers
  import opened Catalog

  /** A row of the matched table: a candidate row and its `is_best_match`
      cell, None while that cell is unset. */
  datatype Candidate = Candidate(row: Row, isBestMatch: Option<bool>)

  /** The phrase whose presence in an answer queues the group for a retry. */
  const NoMatch: string := "No match"

  const SystemMessage: string :=
    "You are a world class AI name matching expert. If you can't find a match, respond with 'No match'."

  /* The fixed parts of the matching prompt. */
  const PromptHead: string := "\"\n    The search term is: "
  const ListIntro: string := "\n    \n    The list of items is: \n    "
  const PromptTail: string :=
    "\n\n    Pay attention to the measurement units and use them to determine the best match for the search term. "
    + "Convert between metric and imperial units if necessary.\n"
    + "    Pay more attention to the description of the item and less to the measurement units. \n"
    + "    Respond with the item name only. What is the best match for the search term? \n    "

  /* ---------------- The prompt ---------------- */

  /** Each item name followed by ", ", in list order. */
  function NameList(names: seq<string>): string
  {
    if names == [] then "" else NameList(names[..|names| - 1]) + names[|names| - 1] + ", "
  }

  /** The matching prompt for a search term and its candidates' names. */
  function Prompt(term: string, names: seq<string>): string
  {
    PromptHead + term + ListIntro + NameList(names) + PromptTail
  }

  lemma {:induction false} NameListAppend(a: seq<string>, b: seq<string>)
    ensures NameList(a + b) == NameList(a) + NameList(b)
    decreases |b|
  {
    if b == [] {
      assert a + b == a;
    } else {
      var n := |b| - 1;
      assert (a + b)[..|a + b| - 1] == a + b[..n];
      NameListAppend(a, b[..n]);
    }
  }

  /** Where the k-th name starts in the name list. */
  function NameOffset(names: seq<string>, k: nat): nat
    requires k <= |names|
  {
    |NameList(names[..k])|
  }

  /** The name list holds each name, followed by ", ", at its offset, and the
      names follow each other in list order without gaps. */
  lemma NameListAt(names: seq<string>, k: nat)
    requires k < |names|
    ensures NameOffset(names, k + 1) == NameOffset(names, k) + |names[k]| + 2
    ensures NameOffset(names, k + 1) <= |NameList(names)|
    ensures NameList(names)[NameOffset(names, k)..NameOffset(names, k + 1)] == names[k] + ", "
  {
    assert names[..k + 1][..k] == names[..k];
    assert names == names[..k + 1] + names[k + 1..];
    NameListAppend(names[..k + 1], names[k + 1..]);
  }

  /** `evaluate_match`: builds the prompt name by name and returns the
      model's answer unchanged. */
  method EvaluateMatch(searchTerm: string, itemNames: seq<string>, llm: (string, string) -> string)
    returns (response: string)
    ensures response == llm(Prompt(searchTerm, itemNames), SystemMessage)
  {
    var prompt := PromptHead + searchTerm + ListIntro;
    for i := 0 to |itemNames|
      invariant prompt == PromptHead + searchTerm + ListIntro + NameList(itemNames[..i])
    {
      assert itemNames[..i + 1][..i] == itemNames[..i];
      prompt := prompt + itemNames[i] + ", ";
    }
    assert itemNames[..|itemNames|] == itemNames;
    prompt := prompt + PromptTail;
    response := llm(prompt, SystemMessage);
  }

  /* ---------------- Groups and the model's answer ---------------- */

  /** The candidate rows of a matched table. */
  function Rows(cs: seq<Candidate>): (rows: seq<Row>)
    ensures |rows| == |cs| && forall i | 0 <= i < |cs| :: rows[i] == cs[i].row
  {
    seq(|cs|, i requires 0 <= i < |cs| => cs[i].row)
  }

  /** `group['item_name'].tolist()`: the item names of the rows carrying the
      term, in row order. */
  function GroupNames(rows: seq<Row>, term: string): seq<string>
  {
    if rows == [] then []
    else
      var n := |rows| - 1;
      GroupNames(rows[..n], term) + (if rows[n].searchTerm == term then [rows[n].itemName] else [])
  }

  /** The model's answer for the group of a term. */
  function Response(rows: seq<Row>, term: string, llm: (string, string) -> string): string
  {
    llm(Prompt(term, GroupNames(rows, term)), SystemMessage)
  }

  /** `sub in s` on strings. */
  predicate Contains(s: string, sub: string)
  {
    exists i | 0 <= i <= |s| - |sub| :: sub <= s[i..]
  }

  /** An answer that queues its group for a retry. */
  predicate Queued(response: string)
  {
    response != "" && Contains(response, NoMatch)
  }

  /** The table after every group is flagged: a row is the best match exactly
      when its item name equals its group's answer. */
  function MarkedTable(rows: seq<Row>, llm: (string, string) -> string): seq<Candidate>
  {
    seq(|rows|, i requires 0 <= i < |rows| => Flagged(rows[i], Response(rows, rows[i].searchTerm, llm)))
  }

  /** A row flagged against its group's answer. */
  function Flagged(r: Row, best: string): Candidate
  {
    Candidate(r, Some(r.itemName == best))
  }

  /** The row queued for an unmatched group: the term as the product, with the
      barcode and cost of the group's first row. */
  function UnmatchedRow(rows: seq<Row>, term: string): CatalogRow
    requires term in Terms(rows)
  {
    var first := FirstWith(rows, term);
    CatalogRow(term, first.cost, first.ean, None)
  }

  /** The model's answers for the groups visited in `keys` order. */
  function Answers(rows: seq<Row>, keys: seq<string>, llm: (string, string) -> string): (answers: seq<string>)
    ensures |answers| == |keys|
    ensures forall k | 0 <= k < |keys| :: answers[k] == Response(rows, keys[k], llm)
  {
    seq(|keys|, k requires 0 <= k < |keys| => Response(rows, keys[k], llm))
  }

  /** The rows queued for the groups visited in `keys` order, given the answer
      for each group. */
  function QueueFor(rows: seq<Row>, keys: seq<string>, answers: seq<string>): seq<CatalogRow>
    requires |answers| == |keys|
    requires forall k | 0 <= k < |keys| :: keys[k] in Terms(rows)
  {
    if keys == [] then []
    else
      var n := |keys| - 1;
      QueueFor(rows, keys[..n], answers[..n])
        + (if Queued(answers[n]) then [UnmatchedRow(rows, keys[n])] else [])
  }

  /** The rows queued for the groups visited in `keys` order, given the model. */
  function Unmatched(rows: seq<Row>, keys: seq<string>, llm: (string, string) -> string): seq<CatalogRow>
    requires forall k | 0 <= k < |keys| :: keys[k] in Terms(rows)
  {
    QueueFor(rows, keys, Answers(rows, keys, llm))
  }

  /** An order of visiting the groups: every search term exactly once. */
  predicate IsGroupOrder(rows: seq<Row>, keys: seq<string>)
  {
    && (forall i, j | 0 <= i < j < |keys| :: keys[i] != keys[j])
    && (forall k | 0 <= k < |keys| :: keys[k] in Terms(rows))
    && (forall i | 0 <= i < |rows| :: rows[i].searchTerm in keys)
  }

  /** The search terms of a table in order of first appearance. */
  function DistinctTerms(rows: seq<Row>): (keys: seq<string>)
    ensures IsGroupOrder(rows, keys)
  {
    if rows == [] then []
    else
      var n := |rows| - 1;
      var front := DistinctTerms(rows[..n]);
      TermsOfLast(rows);
      if rows[n].searchTerm in front then front else front + [rows[n].searchTerm]
  }

  /** The terms of a table are those of all but its last row, and the last row's. */
  lemma TermsOfLast(rows: seq<Row>)
    requires rows != []
    ensures Terms(rows) == Terms(rows[..|rows| - 1]) + {rows[|rows| - 1].searchTerm}
    ensures forall i | 0 <= i < |rows| - 1 :: rows[..|rows| - 1][i] == rows[i]
  {
    var n := |rows| - 1;
    assert forall i | 0 <= i < n :: rows[..n][i] == rows[i];
  }

  /** Keys in order of first appearance: a row carrying a later key comes
      after some row carrying each earlier key. */
  predicate FirstAppearanceOrder(rows: seq<Row>, keys: seq<string>)
  {
    forall i, j, r | 0 <= i < j < |keys| && 0 <= r < |rows| && rows[r].searchTerm == keys[j] ::
      keys[i] in Terms(rows[..r])
  }

  /** The groups are visited in the order their terms first appear in the table. */
  lemma {:induction false} DistinctTermsInOrder(rows: seq<Row>)
    ensures FirstAppearanceOrder(rows, DistinctTerms(rows))
  {
    if rows != [] {
      var n := |rows| - 1;
      var front := DistinctTerms(rows[..n]);
      var keys := DistinctTerms(rows);
      DistinctTermsInOrder(rows[..n]);
      TermsOfLast(rows);
      assert forall r | 0 <= r <= n :: rows[..n][..r] == rows[..r];
      forall i, j, r | 0 <= i < j < |keys| && 0 <= r < |rows| && rows[r].searchTerm == keys[j]
        ensures keys[i] in Terms(rows[..r])
      {
        assert keys[i] == front[i];
        if r == n {
          assert keys[i] in Terms(rows[..n]);
        } else if j == |front| {
          assert false;
        } else {
          assert rows[..n][r].searchTerm == front[j];
        }
      }
    }
  }

  /* ---------------- Flagging in place ---------------- */

  /** The rows one `.loc` assignment selects: those of the group whose item
      name equals the answer (when flag is true) or differs from it (when
      false). */
  predicate Selected(r: Row, term: string, best: string, flag: bool)
  {
    r.searchTerm == term && (r.itemName == best) == flag
  }

  /** `final_df.loc[selection, 'is_best_match'] = flag`: the selected rows get
      the flag; every other row, including every row of another group, is
      left as it was. */
  method LocAssign(table: array<Candidate>, term: string, best: string, flag: bool)
    modifies table
    ensures forall i | 0 <= i < table.Length ::
              table[i] == if Selected(old(table[i]).row, term, best, flag)
                          then old(table[i]).(isBestMatch := Some(flag)) else old(table[i])
  {
    for i := 0 to table.Length
      invariant forall j | 0 <= j < i ::
                  table[j] == if Selected(old(table[j]).row, term, best, flag)
                              then old(table[j]).(isBestMatch := Some(flag)) else old(table[j])
      invariant forall j | i <= j < table.Length :: table[j] == old(table[j])
    {
      if Selected(table[i].row, term, best, flag) {
        table[i] := table[i].(isBestMatch := Some(flag));
      }
    }
  }

  /** The two `.loc` assignments for one group: afterwards every row of the
      group is flagged with whether its item name equals the answer, and
      every row of another group is left as it was. */
  method MarkGroup(table: array<Candidate>, term: string, best: string)
    modifies table
    ensures forall i | 0 <= i < table.Length ::
              table[i] == if old(table[i]).row.searchTerm == term then Flagged(old(table[i]).row, best) else old(table[i])
  {
    LocAssign(table, term, best, true);
    LocAssign(table, term, best, false);
  }

  /** One pass of the grouping loop: asks the model about the group of
      `term`, yields the queued row when the answer contains "No match", and
      flags the group's rows in place. */
  method MatchGroup(table: array<Candidate>, term: string, llm: (string, string) -> string)
    returns (queued: seq<CatalogRow>)
    requires term in Terms(Rows(table[..]))
    modifies table
    ensures forall i | 0 <= i < table.Length ::
              table[i] == if old(table[i]).row.searchTerm == term
                          then Flagged(old(table[i]).row, Response(Rows(old(table[..])), term, llm))
                          else old(table[i])
    ensures queued == if Queued(Response(Rows(old(table[..])), term, llm))
                      then [UnmatchedRow(Rows(old(table[..])), term)] else []
  {
    var rows := Rows(table[..]);
    var bestMatch := EvaluateMatch(term, GroupNames(rows, term), llm);
    queued := [];
    if bestMatch != "" && Contains(bestMatch, NoMatch) {
      var first := FirstWith(rows, term);
      queued := [CatalogRow(term, first.cost, first.ean, None)];
    }
    MarkGroup(table, term, bestMatch);
  }

  /** `match_products_with_search`: visits the groups in `keys` order (the
      order the grouping produces), asks the model once per group with the
      group's names in row order, queues the group when the answer contains
      "No match", and flags the group's rows in place. Afterwards the rows are
      unchanged and every flag says whether the row's item name equals its
      group's answer. */
  method MatchProductsWithSearch(table: array<Candidate>, keys: seq<string>, llm: (string, string) -> string)
    returns (notMatched: seq<CatalogRow>)
    requires IsGroupOrder(Rows(table[..]), keys)
    modifies table
    ensures table[..] == MarkedTable(Rows(old(table[..])), llm)
    ensures notMatched == Unmatched(Rows(old(table[..])), keys, llm)
  {
    ghost var rows := Rows(table[..]);
    notMatched := [];
    for g := 0 to |keys|
      invariant Rows(table[..]) == rows
      invariant FlaggedFor(table[..], rows, keys[..g], llm)
      invariant notMatched == Unmatched(rows, keys[..g], llm)
    {
      notMatched := MatchNext(table, rows, keys, g, llm, notMatched);
    }
    assert keys[..|keys|] == keys;
    FlaggedAll(table[..], rows, keys, llm);
  }

  /** The loop body: the group at position `g` joins the flagged groups and,
      when its answer says so, the queue. */
  method MatchNext(table: array<Candidate>, ghost rows: seq<Row>, keys: seq<string>, g: nat,
                   llm: (string, string) -> string, notMatched: seq<CatalogRow>)
    returns (next: seq<CatalogRow>)
    requires g < |keys| && IsGroupOrder(rows, keys) && table.Length == |rows|
    requires Rows(table[..]) == rows && FlaggedFor(table[..], rows, keys[..g], llm)
    requires notMatched == Unmatched(rows, keys[..g], llm)
    modifies table
    ensures Rows(table[..]) == rows && FlaggedFor(table[..], rows, keys[..g + 1], llm)
    ensures next == Unmatched(rows, keys[..g + 1], llm)
    ensures forall i | 0 <= i < table.Length && rows[i].searchTerm != keys[g] :: table[i] == old(table[i])
  {
    ghost var before := table[..];
    var queued := MatchGroup(table, keys[g], llm);
    FlaggedStep(before, table[..], rows, keys, g, llm);
    UnmatchedStep(rows, keys, g, llm);
    next := notMatched + queued;
  }

  /** Every row of the table whose term is among `ks` is flagged against its group's answer. */
  ghost predicate FlaggedFor(cs: seq<Candidate>, rows: seq<Row>, ks: seq<string>, llm: (string, string) -> string)
    requires |cs| == |rows|
  {
    forall i | 0 <= i < |cs| && rows[i].searchTerm in ks :: cs[i] == Flagged(rows[i], Response(rows, rows[i].searchTerm, llm))
  }

  /** One more group flagged: the rows of that group join the flagged ones, the
      rows themselves stay as they were. */
  lemma FlaggedStep(before: seq<Candidate>, after: seq<Candidate>, rows: seq<Row>, keys: seq<string>, g: nat,
                    llm: (string, string) -> string)
    requires g < |keys| && |before| == |after| == |rows|
    requires Rows(before) == rows && FlaggedFor(before, rows, keys[..g], llm)
    requires forall i | 0 <= i < |after| ::
               after[i] == if before[i].row.searchTerm == keys[g]
                           then Flagged(before[i].row, Response(rows, keys[g], llm)) else before[i]
    ensures Rows(after) == rows && FlaggedFor(after, rows, keys[..g + 1], llm)
  {
    forall i | 0 <= i < |after| && rows[i].searchTerm in keys[..g + 1]
      ensures after[i] == Flagged(rows[i], Response(rows, rows[i].searchTerm, llm))
    {
      if rows[i].searchTerm != keys[g] {
        assert rows[i].searchTerm in keys[..g];
      }
    }
  }

  /** The queue after one more group. */
  lemma UnmatchedStep(rows: seq<Row>, keys: seq<string>, g: nat, llm: (string, string) -> string)
    requires g < |keys| && forall k | 0 <= k < |keys| :: keys[k] in Terms(rows)
    ensures Unmatched(rows, keys[..g + 1], llm)
            == Unmatched(rows, keys[..g], llm)
               + (if Queued(Response(rows, keys[g], llm)) then [UnmatchedRow(rows, keys[g])] else [])
  {
    var answers := Answers(rows, keys[..g + 1], llm);
    assert keys[..g + 1][..g] == keys[..g];
    assert answers[..g] == Answers(rows, keys[..g], llm);
  }

  /** Once every group is flagged, the table is the marked table. */
  lemma FlaggedAll(cs: seq<Candidate>, rows: seq<Row>, keys: seq<string>, llm: (string, string) -> string)
    requires |cs| == |rows| && IsGroupOrder(rows, keys) && FlaggedFor(cs, rows, keys, llm)
    ensures cs == MarkedTable(rows, llm)
  {
    forall i | 0 <= i < |cs|
      ensures cs[i] == MarkedTable(rows, llm)[i]
    {
      assert rows[i].searchTerm in keys;
    }
  }

  /* ---------------- Properties of the flags and the retry queue ---------------- */

  /** How many rows of the group of `term` are flagged as the best match. */
  function CountTrue(cs: seq<Candidate>, term: string): nat
  {
    if cs == [] then 0
    else
      var n := |cs| - 1;
      CountTrue(cs[..n], term) + (if cs[n].row.searchTerm == term && cs[n].isBestMatch == Some(true) then 1 else 0)
  }

  /** The names of a group are exactly the item names of its rows. */
  lemma {:induction false} GroupNamesMembers(rows: seq<Row>, term: string)
    ensures forall i | 0 <= i < |rows| && rows[i].searchTerm == term :: rows[i].itemName in GroupNames(rows, term)
    ensures forall name | name in GroupNames(rows, term) ::
              exists i | 0 <= i < |rows| :: rows[i].searchTerm == term && rows[i].itemName == name
  {
    if rows != [] {
      var n := |rows| - 1;
      GroupNamesMembers(rows[..n], term);
      assert forall i | 0 <= i < n :: rows[..n][i] == rows[i];
    }
  }

  /** In any table whose group rows are flagged against `best`, the number of
      true rows of the group is the number of times `best` occurs among the
      group's names. */
  lemma {:induction false} CountFlagged(rows: seq<Row>, cs: seq<Candidate>, term: string, best: string)
    requires |cs| == |rows|
    requires forall i | 0 <= i < |rows| :: cs[i].row == rows[i]
    requires forall i | 0 <= i < |rows| && rows[i].searchTerm == term :: cs[i] == Flagged(rows[i], best)
    ensures CountTrue(cs, term) == multiset(GroupNames(rows, term))[best]
  {
    if rows != [] {
      var n := |rows| - 1;
      assert forall i | 0 <= i < n :: cs[..n][i] == cs[i] && rows[..n][i] == rows[i];
      CountFlagged(rows[..n], cs[..n], term, best);
    }
  }

  /** After matching, the number of true rows in a group equals the number of
      the group's rows whose item name is the model's answer. */
  lemma TrueRowsCount(rows: seq<Row>, term: string, llm: (string, string) -> string)
    ensures CountTrue(MarkedTable(rows, llm), term) == multiset(GroupNames(rows, term))[Response(rows, term, llm)]
  {
    CountFlagged(rows, MarkedTable(rows, llm), term, Response(rows, term, llm));
  }

  lemma {:induction false} DistinctCountAtMostOne(names: seq<string>, x: string)
    requires forall i, j | 0 <= i < j < |names| :: names[i] != names[j]
    ensures multiset(names)[x] <= 1
  {
    if names != [] {
      var n := |names| - 1;
      assert names == names[..n] + [names[n]];
      DistinctCountAtMostOne(names[..n], x);
      if names[n] == x {
        assert x !in names[..n];
      }
    }
  }

  /** When the item names of a group are pairwise distinct, at most one of its
      rows is flagged as the best match. */
  lemma AtMostOneTrueWhenNamesDistinct(rows: seq<Row>, term: string, llm: (string, string) -> string)
    requires var names := GroupNames(rows, term); forall i, j | 0 <= i < j < |names| :: names[i] != names[j]
    ensures CountTrue(MarkedTable(rows, llm), term) <= 1
  {
    TrueRowsCount(rows, term, llm);
    DistinctCountAtMostOne(GroupNames(rows, term), Response(rows, term, llm));
  }

  /** Two listings with the same name under one search term are both flagged
      when the model answers that name: a group can hold more than one best
      match. */
  lemma DuplicateNamesMarkedTwice(r1: Row, r2: Row, llm: (string, string) -> string)
    requires r1.searchTerm == r2.searchTerm && r1.itemName == r2.itemName
    requires Response([r1, r2], r1.searchTerm, llm) == r1.itemName
    ensures CountTrue(MarkedTable([r1, r2], llm), r1.searchTerm) == 2
  {
    var rows := [r1, r2];
    assert rows[..1] == [r1] && [r1][..0] == [];
    assert GroupNames([r1], r1.searchTerm) == [r1.itemName];
    assert GroupNames(rows, r1.searchTerm) == [r1.itemName, r1.itemName];
    TrueRowsCount(rows, r1.searchTerm, llm);
  }

  /** A group is queued only when its answer queues it; the queued row names
      the group's term and carries the barcode and cost of the group's first
      row. */
  lemma {:induction false} QueueForOnlyQueued(rows: seq<Row>, keys: seq<string>, answers: seq<string>)
    requires |answers| == |keys| && forall k | 0 <= k < |keys| :: keys[k] in Terms(rows)
    ensures forall u | u in QueueFor(rows, keys, answers) ::
              exists k | 0 <= k < |keys| :: keys[k] == u.product && Queued(answers[k]) && u == UnmatchedRow(rows, keys[k])
  {
    if keys != [] {
      var n := |keys| - 1;
      QueueForOnlyQueued(rows, keys[..n], answers[..n]);
      assert forall k | 0 <= k < n :: keys[..n][k] == keys[k] && answers[..n][k] == answers[k];
    }
  }

  /** The group at position `k`, when its answer queues it, is in the queue. */
  lemma {:induction false} QueueForHas(rows: seq<Row>, keys: seq<string>, answers: seq<string>, k: nat)
    requires |answers| == |keys| && forall k | 0 <= k < |keys| :: keys[k] in Terms(rows)
    requires k < |keys| && Queued(answers[k])
    ensures UnmatchedRow(rows, keys[k]) in QueueFor(rows, keys, answers)
  {
    var n := |keys| - 1;
    if k < n {
      assert keys[..n][k] == keys[k] && answers[..n][k] == answers[k];
      QueueForHas(rows, keys[..n], answers[..n], k);
    }
  }

  /** A group is queued for a retry only when the model's answer is non-empty
      and contains "No match"; the queued row names the group's term and
      carries the barcode and cost of the group's first row. */
  lemma UnmatchedOnlyQueued(rows: seq<Row>, keys: seq<string>, llm: (string, string) -> string)
    requires forall k | 0 <= k < |keys| :: keys[k] in Terms(rows)
    ensures forall u | u in Unmatched(rows, keys, llm) ::
              && u.product in keys
              && Queued(Response(rows, u.product, llm))
              && u == UnmatchedRow(rows, u.product)
  {
    QueueForOnlyQueued(rows, keys, Answers(rows, keys, llm));
  }

  /** Every group whose answer is non-empty and contains "No match" is queued. */
  lemma UnmatchedAllQueued(rows: seq<Row>, keys: seq<string>, llm: (string, string) -> string)
    requires forall k | 0 <= k < |keys| :: keys[k] in Terms(rows)
    ensures forall k | 0 <= k < |keys| && Queued(Response(rows, keys[k], llm)) ::
              UnmatchedRow(rows, keys[k]) in Unmatched(rows, keys, llm)
  {
    forall k | 0 <= k < |keys| && Queued(Response(rows, keys[k], llm))
      ensures UnmatchedRow(rows, keys[k]) in Unmatched(rows, keys, llm)
    {
      QueueForHas(rows, keys, Answers(rows, keys, llm), k);
    }
  }

  /** Every queued row comes from a row of the table with that search term,
      barcode and cost, and has no cleaned term yet. */
  lemma UnmatchedProvenance(rows: seq<Row>, keys: seq<string>, llm: (string, string) -> string)
    requires forall k | 0 <= k < |keys| :: keys[k] in Terms(rows)
    ensures forall u | u in Unmatched(rows, keys, llm) ::
              u.cleanedProduct == None &&
              exists i | 0 <= i < |rows| :: rows[i].searchTerm == u.product && rows[i].ean == u.ean && rows[i].cost == u.cost
  {
    UnmatchedOnlyQueued(rows, keys, llm);
  }

  /** An answer that is neither one of the group's names nor contains
      "No match" leaves every row of the group flagged false, yet the group is
      not queued for a retry. */
  lemma SilentlyDropped(rows: seq<Row>, keys: seq<string>, term: string, llm: (string, string) -> string)
    requires IsGroupOrder(rows, keys)
    requires Response(rows, term, llm) !in GroupNames(rows, term)
    requires !Contains(Response(rows, term, llm), NoMatch)
    ensures forall i | 0 <= i < |rows| && rows[i].searchTerm == term :: MarkedTable(rows, llm)[i].isBestMatch == Some(false)
    ensures forall u | u in Unmatched(rows, keys, llm) :: u.product != term
  {
    GroupNamesMembers(rows, term);
    UnmatchedOnlyQueued(rows, keys, llm);
  }
}
