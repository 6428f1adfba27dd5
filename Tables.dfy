/** The rows of the five tables of src/database.py and the queries over
    them, as functions on values: the token upsert, the `SELECT DISTINCT …
    ORDER BY r.start_pos` join behind `search_token`, the `LIMIT 1` join
    behind `get_file_info`, and the pieces of `apply_acuity_filter` (the low
    ids, the batches of 900 and the deletes). */
module Tables {
  import opened Wrappers
  import opened Seqs

  datatype EncodingRow = EncodingRow(id: int, kind: string)
  datatype FileRow = FileRow(id: int, filename: string, encodingId: int)
  datatype RecordRow = RecordRow(id: int, start: int, end: int)
  datatype TokenRow = TokenRow(id: int, value: string, count: int)
  datatype OccurrenceRow = OccurrenceRow(id: int, tokenId: int, recordId: int)

  /** `(filename, type)` as `get_file_info` returns it. */
  datatype FileInfo = FileInfo(filename: string, encoding: string)

  /** The dictionary `get_stats` returns. */
  datatype Stats = Stats(tokens: nat, records: nat, occurrences: nat)

  const BATCH_SIZE: nat := 900

  // ---------------------------------------------------------------- tokens

  predicate UniqueValues(tokens: seq<TokenRow>)
  {
    forall i, j :: 0 <= i < j < |tokens| ==> tokens[i].value != tokens[j].value
  }

  predicate UniqueTokenIds(tokens: seq<TokenRow>)
  {
    forall i, j :: 0 <= i < j < |tokens| ==> tokens[i].id != tokens[j].id
  }

  /** `SELECT id, count FROM token WHERE value = ?` with `fetchone()`: the
      position of the first row holding `value`. */
  function FindToken(tokens: seq<TokenRow>, value: string): (k: Option<nat>)
    ensures k.Some? ==> k.value < |tokens| && tokens[k.value].value == value
    ensures k.Some? ==> forall j :: 0 <= j < k.value ==> tokens[j].value != value
    ensures k.None? <==> forall j :: 0 <= j < |tokens| ==> tokens[j].value != value
  {
    if tokens == [] then None
    else if tokens[0].value == value then Some(0)
    else match FindToken(tokens[1..], value)
      case None => None
      case Some(k) => Some(k + 1)
  }

  /** The token table after `insert_token(value)` and the id it returns. */
  datatype Upsert = Upsert(tokens: seq<TokenRow>, id: int)

  /** `insert_token(value)`: an existing row gets `count + 1` and keeps its
      id; otherwise a row with the next id and count 1 is appended. */
  function UpsertToken(tokens: seq<TokenRow>, value: string, nextId: int): (u: Upsert)
  {
    match FindToken(tokens, value)
    case Some(k) => Upsert(tokens[k := tokens[k].(count := tokens[k].count + 1)], tokens[k].id)
    case None => Upsert(tokens + [TokenRow(nextId, value, 1)], nextId)
  }

  /** What the upsert does, row by row: the row for `value` is the only one
      that changes, it gains one count, and it is new exactly when the value
      was absent. */
  lemma UpsertEffect(tokens: seq<TokenRow>, value: string, nextId: int)
    ensures var u := UpsertToken(tokens, value, nextId);
      match FindToken(tokens, value)
      case Some(k) =>
        && |u.tokens| == |tokens| && u.id == tokens[k].id
        && u.tokens[k] == TokenRow(tokens[k].id, value, tokens[k].count + 1)
        && (forall j :: 0 <= j < |tokens| && j != k ==> u.tokens[j] == tokens[j])
      case None =>
        && |u.tokens| == |tokens| + 1 && u.id == nextId
        && u.tokens[..|tokens|] == tokens
        && u.tokens[|tokens|] == TokenRow(nextId, value, 1)
  {
  }

  /** The `UNIQUE` constraint on `token.value` survives the upsert, and so do
      distinct ids when `nextId` is fresh. */
  lemma UpsertKeepsUnique(tokens: seq<TokenRow>, value: string, nextId: int)
    requires UniqueValues(tokens) && UniqueTokenIds(tokens)
    requires forall j :: 0 <= j < |tokens| ==> tokens[j].id < nextId
    ensures UniqueValues(UpsertToken(tokens, value, nextId).tokens)
    ensures UniqueTokenIds(UpsertToken(tokens, value, nextId).tokens)
  {
  }

  /** Ids stay below the counter, which grows by one exactly when a row is
      added, and every count stays at least 1. */
  lemma UpsertKeepsBounds(tokens: seq<TokenRow>, value: string, nextId: int, u: Upsert)
    requires forall j :: 0 <= j < |tokens| ==> tokens[j].id < nextId && tokens[j].count >= 1
    requires u == UpsertToken(tokens, value, nextId)
    ensures FindToken(tokens, value).Some? ==>
      forall j :: 0 <= j < |u.tokens| ==> u.tokens[j].id < nextId && u.tokens[j].count >= 1
    ensures FindToken(tokens, value).None? ==>
      forall j :: 0 <= j < |u.tokens| ==> u.tokens[j].id < nextId + 1 && u.tokens[j].count >= 1
  {
    UpsertEffect(tokens, value, nextId);
  }

  // ---------------------------------------------------------------- counts

  /** The number of occurrence rows that point at the token id `id`. */
  function CountOf(occurrences: seq<OccurrenceRow>, id: int): (n: nat)
    ensures n <= |occurrences|
  {
    if occurrences == [] then 0
    else (if occurrences[0].tokenId == id then 1 else 0) + CountOf(occurrences[1..], id)
  }

  lemma {:induction false} CountOfSnoc(occurrences: seq<OccurrenceRow>, o: OccurrenceRow, id: int)
    ensures CountOf(occurrences + [o], id) == CountOf(occurrences, id) + (if o.tokenId == id then 1 else 0)
    decreases |occurrences|
  {
    if occurrences == [] {
      assert [o][1..] == [];
    } else {
      assert (occurrences + [o])[1..] == occurrences[1..] + [o];
      CountOfSnoc(occurrences[1..], o, id);
    }
  }

  /** Every token's `count` is the number of its occurrence rows, and every
      occurrence points at a token that exists. */
  predicate CountsMatch(tokens: seq<TokenRow>, occurrences: seq<OccurrenceRow>)
  {
    && (forall t :: t in tokens ==> t.count == CountOf(occurrences, t.id))
    && (forall o :: o in occurrences ==> exists t :: t in tokens && t.id == o.tokenId)
  }

  /** One `insert_token(v)` followed by `insert_token_occurrence(id, r)` with
      the id it returned keeps counts and occurrence rows in step. */
  lemma UpsertThenLinkKeepsCounts(tokens: seq<TokenRow>, occurrences: seq<OccurrenceRow>,
                                  value: string, nextTokenId: int, o: OccurrenceRow)
    requires CountsMatch(tokens, occurrences) && UniqueTokenIds(tokens)
    requires forall j :: 0 <= j < |tokens| ==> tokens[j].id < nextTokenId
    requires o.tokenId == UpsertToken(tokens, value, nextTokenId).id
    ensures CountsMatch(UpsertToken(tokens, value, nextTokenId).tokens, occurrences + [o])
  {
    var u := UpsertToken(tokens, value, nextTokenId);
    var occs := occurrences + [o];
    forall t | t in u.tokens ensures t.count == CountOf(occs, t.id) {
      CountOfSnoc(occurrences, o, t.id);
      var i :| 0 <= i < |u.tokens| && u.tokens[i] == t;
      match FindToken(tokens, value)
      case Some(k) =>
        if i != k {
          assert t == tokens[i];
          assert tokens[i].id != tokens[k].id by {
            if i < k { assert tokens[i].id != tokens[k].id; } else { assert tokens[k].id != tokens[i].id; }
          }
        }
      case None =>
        if i < |tokens| {
          assert t == tokens[i];
          assert t in tokens;
        } else {
          assert CountOf(occurrences, nextTokenId) == 0 by {
            CountOfAbsent(occurrences, nextTokenId, tokens);
          }
        }
    }
    forall x | x in occs ensures exists t :: t in u.tokens && t.id == x.tokenId {
      if x == o {
        match FindToken(tokens, value)
        case Some(k) => assert u.tokens[k] in u.tokens;
        case None => assert u.tokens[|tokens|] in u.tokens;
      } else {
        assert x in occurrences;
        var t :| t in tokens && t.id == x.tokenId;
        var i :| 0 <= i < |tokens| && tokens[i] == t;
        assert u.tokens[i].id == t.id;
        assert u.tokens[i] in u.tokens;
      }
    }
  }

  /** No occurrence points at an id that no token has. */
  lemma {:induction false} CountOfAbsent(occurrences: seq<OccurrenceRow>, id: int, tokens: seq<TokenRow>)
    requires forall o :: o in occurrences ==> exists t :: t in tokens && t.id == o.tokenId
    requires forall t :: t in tokens ==> t.id != id
    ensures CountOf(occurrences, id) == 0
    decreases |occurrences|
  {
    if occurrences != [] {
      assert occurrences[0] in occurrences;
      CountOfAbsent(occurrences[1..], id, tokens);
    }
  }

  // ---------------------------------------------------------------- deletes

  function Elements<T>(s: seq<T>): set<T>
  {
    set x | x in s
  }

  /** `DELETE FROM token WHERE id IN (…)`: the other rows, in order. */
  function DeleteTokens(tokens: seq<TokenRow>, ids: set<int>): (r: seq<TokenRow>)
    ensures |r| <= |tokens|
    ensures forall t :: t in r <==> t in tokens && t.id !in ids
  {
    if tokens == [] then []
    else (if tokens[0].id in ids then [] else [tokens[0]]) + DeleteTokens(tokens[1..], ids)
  }

  /** `DELETE FROM token_occurrence WHERE token_id IN (…)`: the other rows, in order. */
  function DeleteOccurrences(occurrences: seq<OccurrenceRow>, ids: set<int>): (r: seq<OccurrenceRow>)
    ensures |r| <= |occurrences|
    ensures forall o :: o in r <==> o in occurrences && o.tokenId !in ids
  {
    if occurrences == [] then []
    else
      var head := if occurrences[0].tokenId in ids then [] else [occurrences[0]];
      head + DeleteOccurrences(occurrences[1..], ids)
  }

  /** Deleting one set of token ids after another is deleting their union. */
  lemma {:induction false} DeleteTokensTwice(tokens: seq<TokenRow>, a: set<int>, b: set<int>)
    ensures DeleteTokens(DeleteTokens(tokens, a), b) == DeleteTokens(tokens, a + b)
    decreases |tokens|
  {
    if tokens != [] {
      DeleteTokensTwice(tokens[1..], a, b);
      var head := if tokens[0].id in a then [] else [tokens[0]];
      DeleteTokensAppend(head, DeleteTokens(tokens[1..], a), b);
      if tokens[0].id !in a {
        assert DeleteTokens(head, b) == if tokens[0].id in b then [] else [tokens[0]];
      }
    }
  }

  lemma {:induction false} DeleteTokensAppend(x: seq<TokenRow>, y: seq<TokenRow>, ids: set<int>)
    ensures DeleteTokens(x + y, ids) == DeleteTokens(x, ids) + DeleteTokens(y, ids)
    decreases |x|
  {
    if x == [] {
      assert x + y == y;
    } else {
      assert (x + y)[1..] == x[1..] + y;
      DeleteTokensAppend(x[1..], y, ids);
    }
  }

  lemma {:induction false} DeleteOccurrencesTwice(occurrences: seq<OccurrenceRow>, a: set<int>, b: set<int>)
    ensures DeleteOccurrences(DeleteOccurrences(occurrences, a), b) == DeleteOccurrences(occurrences, a + b)
    decreases |occurrences|
  {
    if occurrences != [] {
      DeleteOccurrencesTwice(occurrences[1..], a, b);
      var head := if occurrences[0].tokenId in a then [] else [occurrences[0]];
      DeleteOccurrencesAppend(head, DeleteOccurrences(occurrences[1..], a), b);
      if occurrences[0].tokenId !in a {
        assert DeleteOccurrences(head, b) == if occurrences[0].tokenId in b then [] else [occurrences[0]];
      }
    }
  }

  lemma {:induction false} DeleteOccurrencesAppend(x: seq<OccurrenceRow>, y: seq<OccurrenceRow>, ids: set<int>)
    ensures DeleteOccurrences(x + y, ids) == DeleteOccurrences(x, ids) + DeleteOccurrences(y, ids)
    decreases |x|
  {
    if x == [] {
      assert x + y == y;
    } else {
      assert (x + y)[1..] == x[1..] + y;
      DeleteOccurrencesAppend(x[1..], y, ids);
    }
  }

  lemma {:induction false} DeleteNoTokens(tokens: seq<TokenRow>)
    ensures DeleteTokens(tokens, {}) == tokens
    decreases |tokens|
  {
    if tokens != [] {
      DeleteNoTokens(tokens[1..]);
    }
  }

  lemma {:induction false} DeleteNoOccurrences(occurrences: seq<OccurrenceRow>)
    ensures DeleteOccurrences(occurrences, {}) == occurrences
    decreases |occurrences|
  {
    if occurrences != [] {
      DeleteNoOccurrences(occurrences[1..]);
    }
  }

  lemma {:induction false} CountOfDelete(occurrences: seq<OccurrenceRow>, ids: set<int>, id: int)
    requires id !in ids
    ensures CountOf(DeleteOccurrences(occurrences, ids), id) == CountOf(occurrences, id)
    decreases |occurrences|
  {
    if occurrences != [] {
      CountOfDelete(occurrences[1..], ids, id);
      var head := if occurrences[0].tokenId in ids then [] else [occurrences[0]];
      CountOfAppend(head, DeleteOccurrences(occurrences[1..], ids), id);
      if head != [] { assert head[1..] == []; }
    }
  }

  lemma {:induction false} CountOfAppend(a: seq<OccurrenceRow>, b: seq<OccurrenceRow>, id: int)
    ensures CountOf(a + b, id) == CountOf(a, id) + CountOf(b, id)
    decreases |a|
  {
    if a == [] {
      assert a + b == b;
    } else {
      assert (a + b)[1..] == a[1..] + b;
      CountOfAppend(a[1..], b, id);
    }
  }

  /** Deleting a set of token ids from both tables keeps counts and
      occurrence rows in step. */
  lemma DeleteKeepsCounts(tokens: seq<TokenRow>, occurrences: seq<OccurrenceRow>, ids: set<int>)
    requires CountsMatch(tokens, occurrences)
    ensures CountsMatch(DeleteTokens(tokens, ids), DeleteOccurrences(occurrences, ids))
  {
    forall t | t in DeleteTokens(tokens, ids)
      ensures t.count == CountOf(DeleteOccurrences(occurrences, ids), t.id)
    {
      CountOfDelete(occurrences, ids, t.id);
    }
  }

  // ---------------------------------------------------------------- acuity

  /** `SELECT id FROM token WHERE count < ?`, in table order. */
  function LowIds(tokens: seq<TokenRow>, minCount: int): (ids: seq<int>)
    ensures |ids| <= |tokens|
    ensures forall x :: x in ids <==> exists t :: t in tokens && t.id == x && t.count < minCount
  {
    if tokens == [] then []
    else (if tokens[0].count < minCount then [tokens[0].id] else []) + LowIds(tokens[1..], minCount)
  }

  /** `token_ids[i:i+900]` for `i` in `range(0, len(token_ids), 900)`. */
  function Batches(ids: seq<int>, size: nat): (batches: seq<seq<int>>)
    requires size > 0
    ensures forall k :: 0 <= k < |batches| ==> 0 < |batches[k]| <= size
    decreases |ids|
  {
    if ids == [] then []
    else if |ids| <= size then [ids]
    else [ids[..size]] + Batches(ids[size..], size)
  }

  /** The batches cover the ids in order, each exactly once. */
  lemma {:induction false} BatchesCover(ids: seq<int>, size: nat)
    requires size > 0
    ensures Concat(Batches(ids, size)) == ids
    decreases |ids|
  {
    if ids != [] && |ids| > size {
      var rest := Batches(ids[size..], size);
      assert ([ids[..size]] + rest)[1..] == rest;
      BatchesCover(ids[size..], size);
      assert ids == ids[..size] + ids[size..];
    } else if ids != [] {
      assert [ids][1..] == [];
      assert ids + [] == ids;
    }
  }

  predicate Distinct<T(==)>(s: seq<T>)
  {
    forall i, j :: 0 <= i < j < |s| ==> s[i] != s[j]
  }

  /** Distinct ids never share a batch: every id is in exactly one batch. */
  lemma {:induction false} BatchesDisjoint(ids: seq<int>, size: nat)
    requires size > 0 && Distinct(ids)
    ensures forall i, j, x :: 0 <= i < j < |Batches(ids, size)| && x in Batches(ids, size)[i] ==>
      x !in Batches(ids, size)[j]
    decreases |ids|
  {
    if |ids| > size {
      var head, tail := ids[..size], ids[size..];
      assert Distinct(tail) by {
        forall i, j | 0 <= i < j < |tail| ensures tail[i] != tail[j] {
          assert tail[i] == ids[i + size] && tail[j] == ids[j + size];
        }
      }
      BatchesDisjoint(tail, size);
      BatchesCover(tail, size);
      var b := Batches(ids, size);
      var rest := Batches(tail, size);
      assert b == [head] + rest;
      forall i, j, x | 0 <= i < j < |b| && x in b[i] ensures x !in b[j] {
        ConsIndex(b, head, rest, j);
        if i == 0 {
          if x in b[j] {
            ConcatHolds(rest, j - 1, x);
            HeadMissesTail(ids, size, x);
          }
        } else {
          ConsIndex(b, head, rest, i);
        }
      }
    }
  }

  lemma ConsIndex<T>(b: seq<T>, head: T, rest: seq<T>, i: nat)
    requires b == [head] + rest && 0 < i < |b|
    ensures b[i] == rest[i - 1]
  {
  }

  /** In a sequence of distinct ids, an id among the first `size` is not
      among the rest. */
  lemma HeadMissesTail(ids: seq<int>, size: nat, x: int)
    requires size <= |ids| && Distinct(ids) && x in ids[..size]
    ensures x !in ids[size..]
  {
    var p :| 0 <= p < size && ids[..size][p] == x;
    forall q | 0 <= q < |ids| - size ensures ids[size..][q] != x {
      assert ids[size..][q] == ids[q + size] && ids[p] == x;
    }
  }

  lemma {:induction false} ConcatHolds<T>(chunks: seq<seq<T>>, k: nat, x: T)
    requires k < |chunks| && x in chunks[k]
    ensures x in Concat(chunks)
    decreases k
  {
    if k > 0 {
      ConcatHolds(chunks[1..], k - 1, x);
    }
  }

  /** The token and occurrence tables, as `apply_acuity_filter` prunes them. */
  datatype Pruned = Pruned(tokens: seq<TokenRow>, occurrences: seq<OccurrenceRow>)

  /** For each batch: its occurrences are deleted, then its tokens. */
  function DeleteBatches(p: Pruned, batches: seq<seq<int>>): Pruned
    decreases |batches|
  {
    if batches == [] then p
    else
      var ids := Elements(batches[0]);
      DeleteBatches(Pruned(DeleteTokens(p.tokens, ids), DeleteOccurrences(p.occurrences, ids)), batches[1..])
  }

  lemma ElementsAppend<T>(a: seq<T>, b: seq<T>)
    ensures Elements(a + b) == Elements(a) + Elements(b)
  {
  }

  lemma {:induction false} DeleteBatchesIsDelete(p: Pruned, batches: seq<seq<int>>)
    ensures var ids := Elements(Concat(batches));
      DeleteBatches(p, batches) == Pruned(DeleteTokens(p.tokens, ids), DeleteOccurrences(p.occurrences, ids))
    decreases |batches|
  {
    if batches == [] {
      DeleteNoTokens(p.tokens);
      DeleteNoOccurrences(p.occurrences);
      assert Elements<int>([]) == {};
    } else {
      var first := Elements(batches[0]);
      var rest := Elements(Concat(batches[1..]));
      DeleteBatchesIsDelete(Pruned(DeleteTokens(p.tokens, first), DeleteOccurrences(p.occurrences, first)), batches[1..]);
      DeleteTokensTwice(p.tokens, first, rest);
      DeleteOccurrencesTwice(p.occurrences, first, rest);
      ElementsAppend(batches[0], Concat(batches[1..]));
    }
  }

  /** Deleting in batches of 900 leaves the same tables as deleting the
      whole id set at once. */
  lemma BatchedDeleteIsDelete(p: Pruned, ids: seq<int>)
    ensures DeleteBatches(p, Batches(ids, BATCH_SIZE))
      == Pruned(DeleteTokens(p.tokens, Elements(ids)), DeleteOccurrences(p.occurrences, Elements(ids)))
  {
    BatchesCover(ids, BATCH_SIZE);
    DeleteBatchesIsDelete(p, Batches(ids, BATCH_SIZE));
  }

  /** What deleting the low ids leaves: no token below `minCount`, every
      other token and every occurrence of it, and no occurrence of a
      deleted token. */
  lemma DeleteLowTokens(tokens: seq<TokenRow>, occurrences: seq<OccurrenceRow>, minCount: int,
                        kept: seq<TokenRow>, linked: seq<OccurrenceRow>)
    requires UniqueTokenIds(tokens)
    requires kept == DeleteTokens(tokens, Elements(LowIds(tokens, minCount)))
    requires linked == DeleteOccurrences(occurrences, Elements(LowIds(tokens, minCount)))
    ensures forall t :: t in kept ==> t.count >= minCount
    ensures forall t :: t in tokens && t.count >= minCount ==> t in kept
    ensures forall o, t :: o in occurrences && t in tokens && o.tokenId == t.id ==>
      (o in linked <==> t.count >= minCount)
  {
    var low := Elements(LowIds(tokens, minCount));
    forall t | t in tokens ensures t.id in low <==> t.count < minCount {
      if t.id in low {
        var u :| u in tokens && u.id == t.id && u.count < minCount;
        var i :| 0 <= i < |tokens| && tokens[i] == t;
        var j :| 0 <= j < |tokens| && tokens[j] == u;
        assert i == j || i < j || j < i;
      }
    }
  }

  // ---------------------------------------------------------------- search

  /** The ids of the records linked, through an occurrence, to a token
      whose value is `term`. */
  function LinkedRecords(tokens: seq<TokenRow>, occurrences: seq<OccurrenceRow>, term: string): set<int>
  {
    set t, o | t in tokens && o in occurrences && t.value == term && o.tokenId == t.id :: o.recordId
  }

  predicate SortedByStart(rows: seq<RecordRow>)
  {
    forall i, j :: 0 <= i < j < |rows| ==> rows[i].start <= rows[j].start
  }

  /** `r` placed before the first row that does not start earlier. */
  function InsertByStart(r: RecordRow, rows: seq<RecordRow>): (out: seq<RecordRow>)
    ensures |out| == |rows| + 1
    ensures forall i :: 0 <= i < |out| ==> out[i] == r || out[i] in rows
    ensures multiset(out) == multiset(rows) + multiset{r}
  {
    if rows == [] || r.start <= rows[0].start then [r] + rows
    else
      assert rows == [rows[0]] + rows[1..];
      [rows[0]] + InsertByStart(r, rows[1..])
  }

  lemma {:induction false} InsertByStartSorted(r: RecordRow, rows: seq<RecordRow>)
    requires SortedByStart(rows)
    ensures SortedByStart(InsertByStart(r, rows))
    decreases |rows|
  {
    if rows != [] && r.start > rows[0].start {
      var tail := rows[1..];
      assert SortedByStart(tail) by {
        forall i, j | 0 <= i < j < |tail| ensures tail[i].start <= tail[j].start {
          assert tail[i] == rows[i + 1] && tail[j] == rows[j + 1];
        }
      }
      InsertByStartSorted(r, tail);
      var rest := InsertByStart(r, tail);
      forall k | 0 <= k < |rest| ensures rows[0].start <= rest[k].start {
        if rest[k] != r {
          var m :| 0 <= m < |tail| && tail[m] == rest[k];
          assert tail[m] == rows[m + 1];
        }
      }
    }
  }

  /** `ORDER BY r.start_pos`: an insertion sort, which keeps the table
      order between rows with equal starts. */
  function SortByStart(rows: seq<RecordRow>): (out: seq<RecordRow>)
    ensures multiset(out) == multiset(rows)
  {
    if rows == [] then []
    else
      assert rows == [rows[0]] + rows[1..];
      InsertByStart(rows[0], SortByStart(rows[1..]))
  }

  lemma {:induction false} SortByStartSorted(rows: seq<RecordRow>)
    ensures SortedByStart(SortByStart(rows))
    decreases |rows|
  {
    if rows != [] {
      SortByStartSorted(rows[1..]);
      InsertByStartSorted(rows[0], SortByStart(rows[1..]));
    }
  }

  /** The record rows whose id is in `ids`, in table order. */
  function MatchingRecords(records: seq<RecordRow>, ids: set<int>): (r: seq<RecordRow>)
    ensures forall x :: x in r <==> x in records && x.id in ids
  {
    if records == [] then []
    else (if records[0].id in ids then [records[0]] else []) + MatchingRecords(records[1..], ids)
  }

  /** The rows `search_token(term)` returns. */
  function SearchRows(records: seq<RecordRow>, tokens: seq<TokenRow>,
                      occurrences: seq<OccurrenceRow>, term: string): seq<RecordRow>
  {
    SortByStart(MatchingRecords(records, LinkedRecords(tokens, occurrences, term)))
  }

  predicate UniqueRecordIds(records: seq<RecordRow>)
  {
    forall i, j :: 0 <= i < j < |records| ==> records[i].id != records[j].id
  }

  lemma {:induction false} MatchingDistinct(records: seq<RecordRow>, ids: set<int>)
    requires UniqueRecordIds(records)
    ensures Distinct(MatchingRecords(records, ids))
    decreases |records|
  {
    if records != [] {
      var tail := records[1..];
      assert UniqueRecordIds(tail) by {
        forall i, j | 0 <= i < j < |tail| ensures tail[i].id != tail[j].id {
          assert tail[i] == records[i + 1] && tail[j] == records[j + 1];
        }
      }
      MatchingDistinct(tail, ids);
      assert records[0] !in tail by {
        forall k | 0 <= k < |tail| ensures tail[k] != records[0] {
          assert tail[k] == records[k + 1];
        }
      }
    }
  }

  lemma DistinctOfMultiset<T>(a: seq<T>, b: seq<T>)
    requires Distinct(a) && multiset(a) == multiset(b)
    ensures Distinct(b)
  {
    forall i, j | 0 <= i < j < |b| ensures b[i] != b[j] {
      if b[i] == b[j] {
        var x := b[i];
        assert b == b[..i] + [x] + b[i + 1..j] + [x] + b[j + 1..];
        assert multiset(b)[x] >= 2;
        MultiplicityOfDistinct(a, x);
      }
    }
  }

  lemma {:induction false} MultiplicityOfDistinct<T>(a: seq<T>, x: T)
    requires Distinct(a)
    ensures multiset(a)[x] <= 1
    decreases |a|
  {
    if a != [] {
      assert a == [a[0]] + a[1..];
      assert Distinct(a[1..]) by {
        forall i, j | 0 <= i < j < |a[1..]| ensures a[1..][i] != a[1..][j] {
          assert a[1..][i] == a[i + 1] && a[1..][j] == a[j + 1];
        }
      }
      MultiplicityOfDistinct(a[1..], x);
      if a[0] == x {
        assert x !in a[1..];
      }
    }
  }

  /** What `search_token(term)` promises: rows in ascending `start_pos`,
      each record of the table linked to `term` and no other, each at most
      once, and nothing when no token has the value `term`. */
  lemma SearchRowsSpec(records: seq<RecordRow>, tokens: seq<TokenRow>,
                       occurrences: seq<OccurrenceRow>, term: string)
    requires UniqueRecordIds(records)
    ensures var rows := SearchRows(records, tokens, occurrences, term);
      && SortedByStart(rows)
      && (forall r :: r in rows <==> r in records && r.id in LinkedRecords(tokens, occurrences, term))
      && Distinct(rows)
      && ((forall t :: t in tokens ==> t.value != term) ==> rows == [])
  {
    var linked := LinkedRecords(tokens, occurrences, term);
    var matching := MatchingRecords(records, linked);
    var rows := SortByStart(matching);
    SortByStartSorted(matching);
    MatchingDistinct(records, linked);
    DistinctOfMultiset(matching, rows);
    forall r ensures r in rows <==> r in matching {
      assert r in rows <==> r in multiset(rows);
      assert r in matching <==> r in multiset(matching);
    }
    if forall t :: t in tokens ==> t.value != term {
      assert linked == {};
    }
  }

  // ---------------------------------------------------------------- file info

  /** `SELECT f.filename, e.type FROM file f JOIN encoding e ON
      f.encoding_id = e.id LIMIT 1`: the first file, in table order, whose
      encoding row exists, with that row's type. */
  function FirstFileInfo(files: seq<FileRow>, encodings: seq<EncodingRow>): (r: Option<FileInfo>)
    ensures r.None? <==> forall f, e :: f in files && e in encodings ==> f.encodingId != e.id
    ensures r.Some? ==>
      exists f, e :: f in files && e in encodings && f.encodingId == e.id
        && r.value == FileInfo(f.filename, e.kind)
  {
    if files == [] then None
    else match EncodingOf(encodings, files[0].encodingId)
      case Some(kind) => Some(FileInfo(files[0].filename, kind))
      case None =>
        var r := FirstFileInfo(files[1..], encodings);
        assert forall f :: f in files ==> f == files[0] || f in files[1..];
        r
  }

  /** The type of the first encoding row with the given id. */
  function EncodingOf(encodings: seq<EncodingRow>, id: int): (kind: Option<string>)
    ensures kind.None? <==> forall e :: e in encodings ==> e.id != id
    ensures kind.Some? ==> EncodingRow(id, kind.value) in encodings
  {
    if encodings == [] then None
    else if encodings[0].id == id then Some(encodings[0].kind)
    else EncodingOf(encodings[1..], id)
  }
}
