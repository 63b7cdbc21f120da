/**
 What reading, checking and rewriting the credential cache promise: which files read
 successfully and which exception the others raise, what dictionary a successful read
 yields, and that rewriting the file with a new token reads back as the old dictionary
 with only the bearer value replaced.
 */
module StoreProperties {
  import opened Wrappers
  import opened Text
  import opened OrderedDict
  import opened CredentialStore
  import opened LineProperties

  // ---------------------------------------------------------------------------
  // One iteration of the read loop

  /** A record `retrieve_ids` accepts: it has a value, and a bearer record also carries a readable expiry. */
  predicate RecordOk(r: Record, codec: TimeCodec)
  {
    r.value.Some? && (r.key == BearerKey ==> r.expiryText.Some? && codec.parse(r.expiryText.value).Some?)
  }

  /** One record read into the dictionary is accepted exactly when it is `RecordOk`. */
  lemma ParseRecordAccepts(st: Store, r: Record, n: nat, codec: TimeCodec)
    ensures ParseRecord(st, r, n, codec).Success? <==> RecordOk(r, codec)
  {
  }

  /**
   An accepted record stores its value under its key as `d[k] = v` does, leaves every
   other key as it was, and on a bearer record sets the expiry to the one its third
   field reads as.
   */
  lemma ParseRecordStores(st: Store, r: Record, n: nat, codec: TimeCodec)
    requires ParseRecord(st, r, n, codec).Success?
    ensures var st' := ParseRecord(st, r, n, codec).value;
            && st'.ids == Insert(st.ids, r.key, r.value.value)
            && Get(st'.ids, r.key) == r.value
            && (forall k :: k != r.key ==> Get(st'.ids, k) == Get(st.ids, k))
            && st'.expiry == if r.key == BearerKey then codec.parse(r.expiryText.value) else st.expiry
  {
    InsertSpec(st.ids, r.key, r.value.value);
  }

  /**
   A rejected record raises the exception its shape calls for, tagged with its line
   number: a missing second field, a bearer record without a third field, or a third
   field that does not read as a time.
   */
  lemma ParseRecordRejects(st: Store, r: Record, n: nat, codec: TimeCodec)
    requires ParseRecord(st, r, n, codec).Failure?
    ensures var e := ParseRecord(st, r, n, codec).error;
            && e.line == n
            && (e.MissingValue? <==> r.value.None?)
            && (e.MissingExpiry? <==> r.value.Some? && r.key == BearerKey && r.expiryText.None?)
            && (e.BadExpiry? <==> r.value.Some? && r.key == BearerKey && r.expiryText.Some?
                                  && codec.parse(r.expiryText.value).None?)
  {
  }

  /** One step of the read loop: the last record is read into what the records before it produced. */
  lemma ParseRecordsLast(rs: seq<Record>, codec: TimeCodec, st: Store)
    requires |rs| > 0 && ParseRecords(rs[..|rs| - 1], codec) == Success(st)
    ensures ParseRecords(rs, codec) == ParseRecord(st, rs[|rs| - 1], |rs|, codec)
  {
  }

  // ---------------------------------------------------------------------------
  // Which files read successfully

  /** The file reads successfully iff every one of its records is acceptable. */
  lemma {:induction false} ParseSucceedsIff(rs: seq<Record>, codec: TimeCodec)
    ensures ParseRecords(rs, codec).Success? <==> forall i :: 0 <= i < |rs| ==> RecordOk(rs[i], codec)
    decreases |rs|
  {
    if |rs| > 0 {
      var p := rs[..|rs| - 1];
      ParseSucceedsIff(p, codec);
      assert forall i :: 0 <= i < |p| ==> p[i] == rs[i];
      match ParseRecords(p, codec)
      case Failure(_) =>
      case Success(st) =>
        ParseRecordAccepts(st, rs[|rs| - 1], |rs|, codec);
    }
  }

  /**
   A failed read reports the first unacceptable record: every record before it is
   acceptable, and the exception is the one that record's shape calls for.
   */
  lemma {:induction false} ParseFailsAtFirstBad(rs: seq<Record>, codec: TimeCodec)
    requires ParseRecords(rs, codec).Failure?
    ensures var e := ParseRecords(rs, codec).error;
            && 1 <= e.line <= |rs|
            && !RecordOk(rs[e.line - 1], codec)
            && (forall j :: 0 <= j < e.line - 1 ==> RecordOk(rs[j], codec))
            && (e.MissingValue? <==> rs[e.line - 1].value.None?)
            && (e.MissingExpiry? <==> rs[e.line - 1].value.Some? && rs[e.line - 1].expiryText.None?)
            && (e.BadExpiry? <==> rs[e.line - 1].value.Some? && rs[e.line - 1].expiryText.Some?
                                  && codec.parse(rs[e.line - 1].expiryText.value).None?)
    decreases |rs|
  {
    var p := rs[..|rs| - 1];
    assert forall i :: 0 <= i < |p| ==> p[i] == rs[i];
    match ParseRecords(p, codec)
    case Failure(_) =>
      ParseFailsAtFirstBad(p, codec);
    case Success(st) =>
      ParseSucceedsIff(p, codec);
      ParseRecordAccepts(st, rs[|rs| - 1], |rs|, codec);
      ParseRecordRejects(st, rs[|rs| - 1], |rs|, codec);
  }

  /** The first unacceptable record is the one the read fails on. */
  lemma FirstBadRecord(rs: seq<Record>, codec: TimeCodec, i: nat)
    requires i < |rs| && !RecordOk(rs[i], codec)
    requires forall j :: 0 <= j < i ==> RecordOk(rs[j], codec)
    ensures ParseRecords(rs, codec).Failure?
    ensures ParseRecords(rs, codec).error.line == i + 1
  {
    ParseSucceedsIff(rs, codec);
    ParseFailsAtFirstBad(rs, codec);
  }

  /**
   A line without a comma, such as a blank line, makes reading the file fail, with
   the exception raised at that line or an earlier one.
   */
  lemma MissingCommaRejected(text: string, i: nat, codec: TimeCodec)
    requires i < |ReadLines(text)| && ',' !in ReadLines(text)[i]
    ensures Parse(text, codec).Failure?
    ensures Parse(text, codec).error.line <= i + 1
  {
    var rs := LexLines(ReadLines(text));
    LexValue(ReadLines(text)[i]);
    assert !RecordOk(rs[i], codec);
    ParseSucceedsIff(rs, codec);
    ParseFailsAtFirstBad(rs, codec);
  }

  /** A blank line in the file makes reading it fail. */
  lemma BlankLineRejected(text: string, i: nat, codec: TimeCodec)
    requires i < |ReadLines(text)| && ReadLines(text)[i] == "\n"
    ensures Parse(text, codec).Failure?
  {
    MissingCommaRejected(text, i, codec);
  }

  // ---------------------------------------------------------------------------
  // What a successful read yields

  /** The key of every record, in file order. */
  function RecordKeys(rs: seq<Record>): seq<string>
  {
    seq(|rs|, i requires 0 <= i < |rs| => rs[i].key)
  }

  /** Record `i` is the last record storing its key. */
  ghost predicate LastWithKey(rs: seq<Record>, i: int)
  {
    0 <= i < |rs| && forall j :: i < j < |rs| ==> rs[j].key != rs[i].key
  }

  /** The keys of a successful read are the keys of its records, in the order they first appear. */
  lemma {:induction false} ParsedKeys(rs: seq<Record>, codec: TimeCodec, st: Store)
    requires ParseRecords(rs, codec) == Success(st)
    ensures Keys(st.ids) == FirstOccurrences(RecordKeys(rs))
    decreases |rs|
  {
    if |rs| > 0 {
      var n := |rs|;
      var r := rs[n - 1];
      var sp := ParseRecords(rs[..n - 1], codec).value;
      ParsedKeys(rs[..n - 1], codec, sp);
      ParseRecordsLast(rs, codec, sp);
      ParseRecordStores(sp, r, n, codec);
      InsertSpec(sp.ids, r.key, r.value.value);
      assert RecordKeys(rs)[..n - 1] == RecordKeys(rs[..n - 1]);
    }
  }

  /** Every key of a successful read holds the value of the last record that stores it. */
  lemma {:induction false} ParsedValues(rs: seq<Record>, codec: TimeCodec, st: Store)
    requires ParseRecords(rs, codec) == Success(st)
    ensures forall i :: LastWithKey(rs, i) ==> Get(st.ids, rs[i].key) == rs[i].value
    decreases |rs|
  {
    if |rs| > 0 {
      var n := |rs|;
      var p := rs[..n - 1];
      var sp := ParseRecords(p, codec).value;
      ParsedValues(p, codec, sp);
      ParseRecordsLast(rs, codec, sp);
      ParseRecordStores(sp, rs[n - 1], n, codec);
      forall i | LastWithKey(rs, i)
        ensures Get(st.ids, rs[i].key) == rs[i].value
      {
        if i < n - 1 {
          assert p[i] == rs[i];
          assert LastWithKey(p, i);
        }
      }
    }
  }

  /** The expiry of a successful read is absent exactly when no record is a bearer record. */
  lemma {:induction false} ParsedExpiryAbsent(rs: seq<Record>, codec: TimeCodec, st: Store)
    requires ParseRecords(rs, codec) == Success(st)
    ensures st.expiry.None? <==> BearerKey !in RecordKeys(rs)
    decreases |rs|
  {
    if |rs| > 0 {
      var n := |rs|;
      var p := rs[..n - 1];
      var sp := ParseRecords(p, codec).value;
      ParsedExpiryAbsent(p, codec, sp);
      ParseRecordsLast(rs, codec, sp);
      ParseRecordAccepts(sp, rs[n - 1], n, codec);
      assert RecordKeys(rs) == RecordKeys(p) + [rs[n - 1].key];
    }
  }

  /** The expiry of a successful read is the one the last bearer record's third field reads as. */
  lemma {:induction false} ParsedExpiryLast(rs: seq<Record>, codec: TimeCodec, st: Store)
    requires ParseRecords(rs, codec) == Success(st)
    ensures forall i :: LastWithKey(rs, i) && rs[i].key == BearerKey ==>
              rs[i].expiryText.Some? && st.expiry == codec.parse(rs[i].expiryText.value)
    decreases |rs|
  {
    if |rs| > 0 {
      var n := |rs|;
      var p := rs[..n - 1];
      var sp := ParseRecords(p, codec).value;
      ParsedExpiryLast(p, codec, sp);
      ParseRecordsLast(rs, codec, sp);
      ParseRecordAccepts(sp, rs[n - 1], n, codec);
      forall i | LastWithKey(rs, i) && rs[i].key == BearerKey
        ensures rs[i].expiryText.Some? && st.expiry == codec.parse(rs[i].expiryText.value)
      {
        if i < n - 1 {
          assert p[i] == rs[i];
          assert LastWithKey(p, i);
        }
      }
    }
  }

  /**
   What a successful read yields: the keys in the order they first appear in the file
   (a repeated key keeps its first position), each with the value of the last line that
   stores it, and the expiry of the last bearer line, absent exactly when no line is a
   bearer line.
   */
  lemma ParsedContents(rs: seq<Record>, codec: TimeCodec, st: Store)
    requires ParseRecords(rs, codec) == Success(st)
    ensures Keys(st.ids) == FirstOccurrences(RecordKeys(rs))
    ensures forall i :: LastWithKey(rs, i) ==> Get(st.ids, rs[i].key) == rs[i].value
    ensures st.expiry.None? <==> BearerKey !in RecordKeys(rs)
    ensures forall i :: LastWithKey(rs, i) && rs[i].key == BearerKey ==>
              rs[i].expiryText.Some? && st.expiry == codec.parse(rs[i].expiryText.value)
  {
    ParsedKeys(rs, codec, st);
    ParsedValues(rs, codec, st);
    ParsedExpiryAbsent(rs, codec, st);
    ParsedExpiryLast(rs, codec, st);
  }

  /** A read that found an expiry stored a bearer entry. */
  lemma ExpiryMeansBearer(rs: seq<Record>, codec: TimeCodec, st: Store)
    requires ParseRecords(rs, codec) == Success(st) && st.expiry.Some?
    ensures BearerKey in Keys(st.ids)
  {
    ParsedKeys(rs, codec, st);
    ParsedExpiryAbsent(rs, codec, st);
    FirstOccurrencesSpec(RecordKeys(rs));
  }

  /** Every dictionary a read of clean records produces is clean. */
  lemma {:induction false} ParsedIdsClean(rs: seq<Record>, codec: TimeCodec, st: Store)
    requires forall i :: 0 <= i < |rs| ==> CleanRecord(rs[i])
    requires ParseRecords(rs, codec) == Success(st)
    ensures CleanIds(st.ids)
    decreases |rs|
  {
    if |rs| > 0 {
      var n := |rs|;
      var p := rs[..n - 1];
      var sp := ParseRecords(p, codec).value;
      assert forall i :: 0 <= i < |p| ==> p[i] == rs[i];
      ParsedIdsClean(p, codec, sp);
      ParseRecordsLast(rs, codec, sp);
      ParseRecordStores(sp, rs[n - 1], n, codec);
      var k := rs[n - 1].key;
      var v := rs[n - 1].value.value;
      InsertSpec(sp.ids, k, v);
      if k in Keys(sp.ids) {
        forall i | 0 <= i < |st.ids|
          ensures CleanField(st.ids[i].0) && CleanField(st.ids[i].1)
        {
          assert st.ids[i] == if sp.ids[i].0 == k then (k, v) else sp.ids[i];
        }
      } else {
        assert st.ids == sp.ids + [(k, v)];
      }
    }
  }

  /** Every dictionary read from a file is clean. */
  lemma ReadIdsClean(text: string, codec: TimeCodec)
    requires Parse(text, codec).Success?
    ensures CleanIds(Parse(text, codec).value.ids)
  {
    ReadRecordsClean(text);
    ParsedIdsClean(LexLines(ReadLines(text)), codec, Parse(text, codec).value);
  }

  // ---------------------------------------------------------------------------
  // Reading back what bearer_to_file wrote

  /** The store a read of the rewritten file should produce: bearer value replaced, expiry `t` if there is a bearer entry. */
  function RewrittenStore(ids: Ids, token: string, t: Instant): Store
  {
    Store(SetExisting(ids, BearerKey, token), if BearerKey in Keys(ids) then Some(t) else None)
  }

  /** Rewriting commutes with appending an entry: the entry's bearer value is replaced, and a bearer entry sets the expiry. */
  lemma RewrittenStoreAppend(p: Ids, e: (string, string), token: string, t: Instant)
    ensures RewrittenStore(p + [e], token, t)
            == Store(RewrittenStore(p, token, t).ids + [if e.0 == BearerKey then (BearerKey, token) else e],
                     if e.0 == BearerKey then Some(t) else RewrittenStore(p, token, t).expiry)
    ensures Keys(RewrittenStore(p, token, t).ids) == Keys(p)
  {
    assert Keys(p + [e]) == Keys(p) + [e.0];
  }

  /** The key of entry `n` of a dictionary with distinct keys is not among the keys before it. */
  lemma DistinctEntry(ids: Ids, n: nat)
    requires Distinct(Keys(ids)) && n < |ids|
    ensures ids[n].0 !in Keys(ids[..n])
  {
    forall j | 0 <= j < n
      ensures Keys(ids[..n])[j] != ids[n].0
    {
      assert Keys(ids)[j] != Keys(ids)[n];
    }
  }

  /** Reading one more written record extends the rewritten store by that record's entry. */
  lemma {:induction false} ParseWrittenStep(rs: seq<Record>, p: Ids, e: (string, string), token: string, expiryText: string,
                         codec: TimeCodec, t: Instant)
    requires codec.parse(expiryText) == Some(t) && e.0 !in Keys(p)
    requires |rs| > 0 && rs[|rs| - 1] == WrittenRecord(e, token, expiryText)
    requires ParseRecords(rs[..|rs| - 1], codec) == Success(RewrittenStore(p, token, t))
    ensures ParseRecords(rs, codec) == Success(RewrittenStore(p + [e], token, t))
  {
    var sp := RewrittenStore(p, token, t);
    RewrittenStoreAppend(p, e, token, t);
    ParseRecordsLast(rs, codec, sp);
  }

  /** Reading the first `n` written records gives the first `n` entries, bearer value replaced. */
  lemma {:induction false} ParseWrittenPrefix(ids: Ids, token: string, expiryText: string,
                                              codec: TimeCodec, t: Instant, n: nat)
    requires Distinct(Keys(ids)) && codec.parse(expiryText) == Some(t)
    requires n <= |ids|
    ensures ParseRecords(WrittenRecords(ids, token, expiryText)[..n], codec)
            == Success(RewrittenStore(ids[..n], token, t))
  {
    if n > 0 {
      ParseWrittenPrefix(ids, token, expiryText, codec, t, n - 1);
      var all := WrittenRecords(ids, token, expiryText);
      var rs := all[..n];
      assert rs[..n - 1] == all[..n - 1];
      DistinctEntry(ids, n - 1);
      assert ids[..n] == ids[..n - 1] + [ids[n - 1]];
      ParseWrittenStep(rs, ids[..n - 1], ids[n - 1], token, expiryText, codec, t);
    } else {
      assert WrittenRecords(ids, token, expiryText)[..0] == [];
      assert SetExisting(ids[..0], BearerKey, token) == [];
      assert Keys(ids[..0]) == [];
    }
  }

  /**
   The round trip: when every key, value and the token are clean fields and the expiry
   text is a clean third field that reads back, reading what `bearer_to_file` wrote gives
   the original dictionary with only the bearer value replaced by the token, keys in the
   same order, and the written expiry; a dictionary without a bearer entry comes back
   unchanged and without an expiry.
   */
  lemma ParseSerialised(ids: Ids, token: string, expiryText: string, codec: TimeCodec, t: Instant)
    requires CleanIds(ids) && CleanField(token)
    requires CleanExpiryText(expiryText) && codec.parse(expiryText) == Some(t)
    ensures Parse(Serialise(ids, token, expiryText), codec) == Success(RewrittenStore(ids, token, t))
  {
    LexSerialised(ids, token, expiryText);
    var rs := WrittenRecords(ids, token, expiryText);
    ParseWrittenPrefix(ids, token, expiryText, codec, t, |ids|);
    assert rs[..|ids|] == rs;
    assert ids[..|ids|] == ids;
  }

  /**
   Written records holding a bearer entry whose expiry text does not read back fail
   with the expiry error.
   */
  lemma WrittenBadExpiry(ids: Ids, token: string, expiryText: string, codec: TimeCodec)
    requires codec.parse(expiryText).None? && BearerKey in Keys(ids)
    ensures ParseRecords(WrittenRecords(ids, token, expiryText), codec).Failure?
    ensures ParseRecords(WrittenRecords(ids, token, expiryText), codec).error.BadExpiry?
  {
    var rs := WrittenRecords(ids, token, expiryText);
    var i :| 0 <= i < |ids| && Keys(ids)[i] == BearerKey;
    assert !RecordOk(rs[i], codec);
    ParseSucceedsIff(rs, codec);
    ParseFailsAtFirstBad(rs, codec);
  }

  // ---------------------------------------------------------------------------
  // bearer_to_file and retrieve_ids

  /**
   `bearer_to_file` on a readable store: the file is rewritten with the token and an
   expiry one hour after the clock reading, and the dictionary it returns is the old one
   with only the bearer value replaced; no key is added or dropped.
   */
  lemma BearerToFileReplacesToken(store: string, token: string, now: Instant, codec: TimeCodec)
    requires Parse(store, codec).Success?
    requires CleanField(token)
    requires CleanExpiryText(codec.format(now + OneHour))
    requires codec.parse(codec.format(now + OneHour)) == Some(now + OneHour)
    ensures var ids := Parse(store, codec).value.ids;
            var r := BearerToFile(store, token, now, codec);
            && r.Success?
            && r.value.ids == SetExisting(ids, BearerKey, token)
            && Keys(r.value.ids) == Keys(ids)
            && (BearerKey in Keys(ids) ==> Get(r.value.ids, BearerKey) == Some(token))
            && (forall k :: k != BearerKey ==> Get(r.value.ids, k) == Get(ids, k))
            && Parse(r.value.store, codec).value.expiry == if BearerKey in Keys(ids) then Some(now + OneHour) else None
  {
    var st := Parse(store, codec).value;
    ReadIdsClean(store, codec);
    ParseSerialised(st.ids, token, codec.format(now + OneHour), codec, now + OneHour);
    forall k
      ensures Get(SetExisting(st.ids, BearerKey, token), k)
              == if k == BearerKey && BearerKey in Keys(st.ids) then Some(token) else Get(st.ids, k)
    {
      GetSetExisting(st.ids, BearerKey, token, k);
    }
  }

  /**
   If the expiry text the clock reading produces does not read back (as `str(datetime)`
   leaves out the microseconds when they are zero), rewriting a store that holds a bearer
   entry fails when the new file is read.
   */
  lemma BearerToFileUnreadableExpiry(store: string, token: string, now: Instant, codec: TimeCodec)
    requires Parse(store, codec).Success? && BearerKey in Keys(Parse(store, codec).value.ids)
    requires CleanField(token)
    requires CleanExpiryText(codec.format(now + OneHour))
    requires codec.parse(codec.format(now + OneHour)).None?
    ensures BearerToFile(store, token, now, codec).Failure?
    ensures BearerToFile(store, token, now, codec).error.BadExpiry?
  {
    var st := Parse(store, codec).value;
    var text := codec.format(now + OneHour);
    ReadIdsClean(store, codec);
    LexSerialised(st.ids, token, text);
    WrittenBadExpiry(st.ids, token, text, codec);
  }

  /** With the check skipped, `retrieve_ids` returns exactly what the read produced and never renews. */
  lemma SkipCheckKeepsParsed(store: string, now: Instant, renewAt: Instant,
                             issue: Credentials -> string, codec: TimeCodec)
    ensures var r := RetrieveIds(store, true, now, renewAt, issue, codec);
            && (Parse(store, codec).Success? ==> r == Success(Loaded(Parse(store, codec).value.ids, store, false)))
            && (Parse(store, codec).Failure? ==> r == Failure(Malformed(Parse(store, codec).error)))
  {
  }

  /** With the check on, a store without a bearer line raises the comparison error. */
  lemma CheckWithoutBearerFails(store: string, now: Instant, renewAt: Instant,
                                issue: Credentials -> string, codec: TimeCodec)
    requires Parse(store, codec).Success?
    requires forall i :: 0 <= i < |ReadLines(store)| ==> Lex(ReadLines(store)[i]).key != BearerKey
    ensures RetrieveIds(store, false, now, renewAt, issue, codec) == Failure(NoExpiry)
  {
    var rs := LexLines(ReadLines(store));
    assert forall i :: 0 <= i < |rs| ==> RecordKeys(rs)[i] != BearerKey;
    ParsedExpiryAbsent(rs, codec, Parse(store, codec).value);
  }

  /** With the check on and a clock reading no later than the stored expiry, the cached dictionary is kept. */
  lemma UnexpiredTokenKept(store: string, now: Instant, renewAt: Instant,
                           issue: Credentials -> string, codec: TimeCodec)
    requires Parse(store, codec).Success?
    requires Parse(store, codec).value.expiry.Some?
    requires now <= Parse(store, codec).value.expiry.value
    ensures RetrieveIds(store, false, now, renewAt, issue, codec)
            == Success(Loaded(Parse(store, codec).value.ids, store, false))
  {
  }

  /**
   With the check on and a clock reading strictly after the stored expiry, the token is
   renewed once: the identity provider is asked with the stored credentials, and the
   dictionary returned holds its token under `bearer` with every other key unchanged.
   */
  lemma ExpiredTokenRenewed(store: string, now: Instant, renewAt: Instant,
                            issue: Credentials -> string, codec: TimeCodec)
    requires Parse(store, codec).Success?
    requires Parse(store, codec).value.expiry.Some?
    requires now > Parse(store, codec).value.expiry.value
    requires CleanField(issue(CredentialsOf(Parse(store, codec).value.ids)))
    requires CleanExpiryText(codec.format(renewAt + OneHour))
    requires codec.parse(codec.format(renewAt + OneHour)) == Some(renewAt + OneHour)
    ensures var ids := Parse(store, codec).value.ids;
            var token := issue(CredentialsOf(ids));
            var r := RetrieveIds(store, false, now, renewAt, issue, codec);
            && r.Success? && r.value.renewed
            && r.value.ids == SetExisting(ids, BearerKey, token)
            && Keys(r.value.ids) == Keys(ids)
            && Get(r.value.ids, BearerKey) == Some(token)
            && (forall k :: k != BearerKey ==> Get(r.value.ids, k) == Get(ids, k))
            && Parse(r.value.store, codec).value.expiry == Some(renewAt + OneHour)
  {
    var st := Parse(store, codec).value;
    ExpiryMeansBearer(LexLines(ReadLines(store)), codec, st);
    BearerToFileReplacesToken(store, issue(CredentialsOf(st.ids)), renewAt, codec);
  }
}
