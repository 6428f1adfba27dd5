/** `Database` of src/database.py, with the SQLite file replaced by five
    in-memory tables. Each table keeps its AUTOINCREMENT counter: a row gets
    the next id of its table, and `DELETE FROM` never gives an id back. */
module Database {
  import opened Wrappers
  import opened Seqs
  import opened Tables

  class Index {
    var encodings: seq<EncodingRow>
    var files: seq<FileRow>
    var records: seq<RecordRow>
    var tokens: seq<TokenRow>
    var occurrences: seq<OccurrenceRow>

    // The id each table hands out next.
    var nextEncodingId: int
    var nextFileId: int
    var nextRecordId: int
    var nextTokenId: int
    var nextOccurrenceId: int

    /** Ids lie below their table's counter, record and token ids are
        distinct, token values are distinct (`UNIQUE`) and every count is at
        least the `DEFAULT 1`. */
    ghost predicate Valid()
      reads this
    {
      && (forall k :: 0 <= k < |encodings| ==> encodings[k].id < nextEncodingId)
      && (forall k :: 0 <= k < |files| ==> files[k].id < nextFileId)
      && (forall k :: 0 <= k < |records| ==> records[k].id < nextRecordId)
      && (forall k :: 0 <= k < |tokens| ==> tokens[k].id < nextTokenId && tokens[k].count >= 1)
      && (forall k :: 0 <= k < |occurrences| ==> occurrences[k].id < nextOccurrenceId)
      && UniqueRecordIds(records) && UniqueTokenIds(tokens) && UniqueValues(tokens)
    }

    /** Every token's count is its number of occurrence rows. */
    ghost predicate Consistent()
      reads this
    {
      CountsMatch(tokens, occurrences)
    }

    /** `Database(db_path)` and `connect()` on a new file: empty tables. */
    constructor ()
      ensures Valid() && Consistent()
      ensures encodings == [] && files == [] && records == [] && tokens == [] && occurrences == []
      ensures nextEncodingId == 1 && nextFileId == 1 && nextRecordId == 1 && nextTokenId == 1
      ensures nextOccurrenceId == 1
    {
      encodings, files, records, tokens, occurrences := [], [], [], [], [];
      nextEncodingId, nextFileId, nextRecordId, nextTokenId, nextOccurrenceId := 1, 1, 1, 1, 1;
    }

    /** `truncate_tables()`: every table is emptied; the counters stay. */
    method TruncateTables()
      requires Valid()
      modifies this
      ensures Valid() && Consistent()
      ensures encodings == [] && files == [] && records == [] && tokens == [] && occurrences == []
      ensures nextEncodingId == old(nextEncodingId) && nextFileId == old(nextFileId)
      ensures nextRecordId == old(nextRecordId) && nextTokenId == old(nextTokenId)
      ensures nextOccurrenceId == old(nextOccurrenceId)
    {
      occurrences := [];
      tokens := [];
      records := [];
      files := [];
      encodings := [];
    }

    /** `insert_encoding(type)`: one row appended, its id returned. */
    method InsertEncoding(kind: string) returns (id: int)
      requires Valid()
      modifies this`encodings, this`nextEncodingId
      ensures Valid()
      ensures id == old(nextEncodingId) && nextEncodingId == id + 1
      ensures encodings == old(encodings) + [EncodingRow(id, kind)]
    {
      id := nextEncodingId;
      encodings := encodings + [EncodingRow(id, kind)];
      nextEncodingId := id + 1;
    }

    /** `insert_file(filename, encoding_id)`: one row appended, its id
        returned; the encoding id is stored as given. */
    method InsertFile(filename: string, encodingId: int) returns (id: int)
      requires Valid()
      modifies this`files, this`nextFileId
      ensures Valid()
      ensures id == old(nextFileId) && nextFileId == id + 1
      ensures files == old(files) + [FileRow(id, filename, encodingId)]
    {
      id := nextFileId;
      files := files + [FileRow(id, filename, encodingId)];
      nextFileId := id + 1;
    }

    /** `insert_record(start_pos, end_pos)`: one row appended, its id returned. */
    method InsertRecord(start: int, end: int) returns (id: int)
      requires Valid()
      modifies this`records, this`nextRecordId
      ensures Valid()
      ensures id == old(nextRecordId) && nextRecordId == id + 1
      ensures records == old(records) + [RecordRow(id, start, end)]
    {
      id := nextRecordId;
      records := records + [RecordRow(id, start, end)];
      nextRecordId := id + 1;
    }

    /** `insert_token(value)`: the count of an existing value goes up by one
        and its id is returned; a new value gets a row with count 1. */
    method InsertToken(value: string) returns (id: int)
      requires Valid()
      modifies this`tokens, this`nextTokenId
      ensures Valid()
      ensures tokens == UpsertToken(old(tokens), value, old(nextTokenId)).tokens
      ensures id == UpsertToken(old(tokens), value, old(nextTokenId)).id
      ensures nextTokenId == if FindToken(old(tokens), value).Some? then old(nextTokenId) else old(nextTokenId) + 1
    {
      UpsertKeepsUnique(tokens, value, nextTokenId);
      var u := UpsertToken(tokens, value, nextTokenId);
      UpsertKeepsBounds(tokens, value, nextTokenId, u);
      match FindToken(tokens, value)
      case Some(k) =>
        tokens := u.tokens;
        id := u.id;
      case None =>
        tokens := u.tokens;
        id := u.id;
        nextTokenId := nextTokenId + 1;
    }

    /** `insert_token_occurrence(token_id, record_id)`: one row appended. */
    method InsertTokenOccurrence(tokenId: int, recordId: int)
      requires Valid()
      modifies this`occurrences, this`nextOccurrenceId
      ensures Valid()
      ensures nextOccurrenceId == old(nextOccurrenceId) + 1
      ensures occurrences == old(occurrences) + [OccurrenceRow(old(nextOccurrenceId), tokenId, recordId)]
    {
      occurrences := occurrences + [OccurrenceRow(nextOccurrenceId, tokenId, recordId)];
      nextOccurrenceId := nextOccurrenceId + 1;
    }

    /** `search_token(term)`: the records linked to a token whose value is
        exactly `term`, in ascending `start_pos`, each once. */
    method SearchToken(term: string) returns (rows: seq<RecordRow>)
      requires Valid()
      ensures rows == SearchRows(records, tokens, occurrences, term)
      ensures SortedByStart(rows) && Distinct(rows)
      ensures forall r :: r in rows <==> r in records && r.id in LinkedRecords(tokens, occurrences, term)
      ensures (forall t :: t in tokens ==> t.value != term) ==> rows == []
    {
      rows := SearchRows(records, tokens, occurrences, term);
      SearchRowsSpec(records, tokens, occurrences, term);
    }

    /** `get_file_info()`: the first file whose encoding row exists, with
        that encoding's type. */
    method GetFileInfo() returns (info: Option<FileInfo>)
      ensures info == FirstFileInfo(files, encodings)
      ensures info.None? <==> forall f, e :: f in files && e in encodings ==> f.encodingId != e.id
    {
      info := FirstFileInfo(files, encodings);
    }

    /** `get_stats()`: the row counts of the token, record and occurrence tables. */
    method GetStats() returns (stats: Stats)
      ensures stats == Stats(|tokens|, |records|, |occurrences|)
    {
      stats := Stats(|tokens|, |records|, |occurrences|);
    }

    /** `apply_acuity_filter(min_count)`: the ids of the tokens counted
        fewer than `minCount` times are deleted, 900 at a time, from the
        occurrence table and then from the token table; their number is
        returned. */
    method ApplyAcuityFilter(minCount: int) returns (deleted: nat)
      requires Valid()
      modifies this`tokens, this`occurrences
      ensures Valid()
      ensures old(Consistent()) ==> Consistent()
      ensures deleted == |LowIds(old(tokens), minCount)|
      ensures tokens == DeleteTokens(old(tokens), Elements(LowIds(old(tokens), minCount)))
      ensures occurrences == DeleteOccurrences(old(occurrences), Elements(LowIds(old(tokens), minCount)))
      ensures forall t :: t in tokens ==> t.count >= minCount
      ensures forall t :: t in old(tokens) && t.count >= minCount ==> t in tokens
      ensures deleted == 0 ==> tokens == old(tokens) && occurrences == old(occurrences)
    {
      ghost var tokens0, occurrences0 := tokens, occurrences;
      var ids := LowIds(tokens, minCount);
      DeleteInBatches(ids);
      deleted := |ids|;
      DeleteLowTokens(tokens0, occurrences0, minCount, tokens, occurrences);
      PruneKeepsValid(tokens0, occurrences0, Elements(ids), nextTokenId, nextOccurrenceId, tokens, occurrences);
      if ids == [] {
        assert Elements(ids) == {};
        DeleteNoTokens(tokens0);
        DeleteNoOccurrences(occurrences0);
      }
    }

    /** The deletion loop of `apply_acuity_filter`: the ids go in batches of
        `BATCH_SIZE`, each deleted from the occurrence table and then from
        the token table; together the batches delete exactly `ids`. */
    method DeleteInBatches(ids: seq<int>)
      modifies this`tokens, this`occurrences
      ensures tokens == DeleteTokens(old(tokens), Elements(ids))
      ensures occurrences == DeleteOccurrences(old(occurrences), Elements(ids))
    {
      ghost var tokens0, occurrences0 := tokens, occurrences;
      var batches := Batches(ids, BATCH_SIZE);
      BatchesCover(ids, BATCH_SIZE);
      DeleteNoTokens(tokens);
      DeleteNoOccurrences(occurrences);
      var b := 0;
      assert Elements(Concat(batches[..0])) == {} by {
        assert batches[..0] == [];
      }
      while b < |batches|
        invariant 0 <= b <= |batches|
        invariant tokens == DeleteTokens(tokens0, Elements(Concat(batches[..b])))
        invariant occurrences == DeleteOccurrences(occurrences0, Elements(Concat(batches[..b])))
      {
        BatchStep(tokens0, occurrences0, batches, b);
        occurrences := DeleteOccurrences(occurrences, Elements(batches[b]));
        tokens := DeleteTokens(tokens, Elements(batches[b]));
        b := b + 1;
      }
      assert batches[..b] == batches;
    }
  }

  /** One more batch: deleting the ids of the first `b` batches and then
      those of batch `b` is deleting the ids of the first `b + 1` batches. */
  lemma BatchStep(tokens: seq<TokenRow>, occurrences: seq<OccurrenceRow>, batches: seq<seq<int>>, b: nat)
    requires b < |batches|
    ensures DeleteTokens(DeleteTokens(tokens, Elements(Concat(batches[..b]))), Elements(batches[b]))
      == DeleteTokens(tokens, Elements(Concat(batches[..b + 1])))
    ensures DeleteOccurrences(DeleteOccurrences(occurrences, Elements(Concat(batches[..b]))), Elements(batches[b]))
      == DeleteOccurrences(occurrences, Elements(Concat(batches[..b + 1])))
  {
    assert batches[..b + 1] == batches[..b] + [batches[b]];
    ConcatSnoc(batches[..b], batches[b]);
    ElementsAppend(Concat(batches[..b]), batches[b]);
    DeleteOccurrencesTwice(occurrences, Elements(Concat(batches[..b])), Elements(batches[b]));
    DeleteTokensTwice(tokens, Elements(Concat(batches[..b])), Elements(batches[b]));
  }

  /** Deleting token ids keeps what `Valid` asks of the two tables and, when
      counts matched before, they match after. */
  lemma PruneKeepsValid(tokens: seq<TokenRow>, occurrences: seq<OccurrenceRow>, ids: set<int>,
                        nextTokenId: int, nextOccurrenceId: int, kept: seq<TokenRow>, linked: seq<OccurrenceRow>)
    requires forall k :: 0 <= k < |tokens| ==> tokens[k].id < nextTokenId && tokens[k].count >= 1
    requires forall k :: 0 <= k < |occurrences| ==> occurrences[k].id < nextOccurrenceId
    requires UniqueTokenIds(tokens) && UniqueValues(tokens)
    requires kept == DeleteTokens(tokens, ids) && linked == DeleteOccurrences(occurrences, ids)
    ensures forall k :: 0 <= k < |kept| ==> kept[k].id < nextTokenId && kept[k].count >= 1
    ensures forall k :: 0 <= k < |linked| ==> linked[k].id < nextOccurrenceId
    ensures UniqueTokenIds(kept) && UniqueValues(kept)
    ensures CountsMatch(tokens, occurrences) ==> CountsMatch(kept, linked)
  {
    forall k | 0 <= k < |kept| ensures kept[k].id < nextTokenId && kept[k].count >= 1 {
      assert kept[k] in tokens;
    }
    forall k | 0 <= k < |linked| ensures linked[k].id < nextOccurrenceId {
      assert linked[k] in occurrences;
    }
    DeleteKeepsUnique(tokens, ids);
    if CountsMatch(tokens, occurrences) {
      DeleteKeepsCounts(tokens, occurrences, ids);
    }
  }

  /** Deleting rows keeps distinct ids and values distinct. */
  lemma {:induction false} DeleteKeepsUnique(tokens: seq<TokenRow>, ids: set<int>)
    requires UniqueTokenIds(tokens) && UniqueValues(tokens)
    ensures UniqueTokenIds(DeleteTokens(tokens, ids)) && UniqueValues(DeleteTokens(tokens, ids))
    decreases |tokens|
  {
    if tokens != [] {
      var tail := tokens[1..];
      assert UniqueTokenIds(tail) && UniqueValues(tail) by {
        forall i, j | 0 <= i < j < |tail| ensures tail[i].id != tail[j].id && tail[i].value != tail[j].value {
          assert tail[i] == tokens[i + 1] && tail[j] == tokens[j + 1];
        }
      }
      DeleteKeepsUnique(tail, ids);
      var rest := DeleteTokens(tail, ids);
      if tokens[0].id in ids {
        assert DeleteTokens(tokens, ids) == [] + rest == rest;
      } else {
        forall k | 0 <= k < |rest| ensures rest[k].id != tokens[0].id && rest[k].value != tokens[0].value {
          var m :| 0 <= m < |tail| && tail[m] == rest[k];
          assert tail[m] == tokens[m + 1];
        }
        UniqueCons(tokens[0], rest, DeleteTokens(tokens, ids));
      }
    }
  }

  lemma UniqueCons(head: TokenRow, rest: seq<TokenRow>, r: seq<TokenRow>)
    requires r == [head] + rest && UniqueTokenIds(rest) && UniqueValues(rest)
    requires forall k :: 0 <= k < |rest| ==> rest[k].id != head.id && rest[k].value != head.value
    ensures UniqueTokenIds(r) && UniqueValues(r)
  {
    forall i, j | 0 <= i < j < |r| ensures r[i].id != r[j].id && r[i].value != r[j].value {
      assert r[j] == rest[j - 1];
      if i > 0 {
        assert r[i] == rest[i - 1];
      }
    }
  }

  lemma LinkedOne(t: TokenRow, o: OccurrenceRow, term: string)
    requires t.value == term && o.tokenId == t.id
    ensures LinkedRecords([t], [o], term) == {o.recordId}
  {
    assert t in [t] && o in [o];
  }

  /** The rows of the database test: one encoding, file, record, token and
      occurrence, inserted in that order into a new database. */
  method OneRecordIndex(kind: string, filename: string, word: string)
    returns (db: Index, recordId: int, tokenId: int)
    ensures fresh(db) && db.Valid()
    ensures db.records == [RecordRow(recordId, 0, 100)]
    ensures db.tokens == [TokenRow(tokenId, word, 1)]
    ensures db.occurrences == [OccurrenceRow(1, tokenId, recordId)]
  {
    db := new Index();
    var encodingId := db.InsertEncoding(kind);
    var fileId := db.InsertFile(filename, encodingId);
    recordId := db.InsertRecord(0, 100);
    tokenId := db.InsertToken(word);
    assert db.occurrences == [] && db.nextOccurrenceId == 1;
    db.InsertTokenOccurrence(tokenId, recordId);
  }

  /** The database test: the token is found once, as the record inserted,
      and the statistics count one of each. */
  method OneRecordScenario(kind: string, filename: string, word: string) returns (found: seq<RecordRow>, stats: Stats)
    ensures |found| == 1 && found[0].start == 0 && found[0].end == 100
    ensures stats == Stats(1, 1, 1)
  {
    var db, recordId, tokenId := OneRecordIndex(kind, filename, word);
    found := db.SearchToken(word);
    var row := RecordRow(recordId, 0, 100);
    LinkedOne(TokenRow(tokenId, word, 1), OccurrenceRow(1, tokenId, recordId), word);
    assert MatchingRecords([row], {recordId}) == [row];
    assert found == [row];
    stats := db.GetStats();
  }
}
