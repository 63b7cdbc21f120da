/**
 The credential cache file `ids.txt` of report-exporter.py: one record per line,
 `key,value` or `bearer,token,expiry`. Reading it (`retrieve_ids`), deciding whether
 the cached bearer token has expired, and rewriting it with a new token
 (`bearer_to_file`) are pure functions of the file's text here.
 */
module CredentialStore {
  import opened Wrappers
  import opened Text
  import opened OrderedDict

  /** A reading of the naive local clock, in microseconds. */
  type Instant = int

  /** `timedelta(hours=1)` in microseconds. */
  const OneHour: int := 3_600_000_000

  /**
   How an expiry instant is written into the store (`str(datetime)`) and read back
   (`datetime.strptime(text, "%Y-%m-%d %H:%M:%S.%f")`); `parse` answers `None` where
   `strptime` raises `ValueError`.
   */
  datatype TimeCodec = TimeCodec(format: Instant -> string, parse: string -> Option<Instant>)

  const BearerKey := "bearer"

  /** The dictionary `retrieve_ids` builds. */
  type Ids = Dict<string, string>

  /** What one pass over the file yields: the dictionary and the expiry of the last bearer line. */
  datatype Store = Store(ids: Ids, expiry: Option<Instant>)

  /** The exceptions reading the file can raise, with the 1-based number of the offending line. */
  datatype ParseError =
    | MissingValue(line: nat)   // IndexError on `line[1]`: the line has no comma
    | MissingExpiry(line: nat)  // IndexError on `line[2]`: a bearer line with only two fields
    | BadExpiry(line: nat)      // ValueError from `strptime` on the bearer line's third field

  /** The comma-separated fields of a line once its newline terminator is stripped. */
  function Fields(line: string): seq<string>
  {
    Split(Strip(line, Newline), ',')
  }

  /**
   What the loop body of `retrieve_ids` picks out of one line: the key (first field,
   whitespace-stripped), the value (second field, whitespace-stripped) if there is a
   second field, and the unstripped third field if there is one.
   */
  datatype Record = Record(key: string, value: Option<string>, expiryText: Option<string>)

  function Lex(line: string): Record
  {
    var f := Fields(line);
    Record(Strip(f[0], Whitespace),
           if |f| >= 2 then Some(Strip(f[1], Whitespace)) else None,
           if |f| >= 3 then Some(f[2]) else None)
  }

  /** The records of the lines, in file order. */
  function LexLines(lines: seq<string>): seq<Record>
  {
    seq(|lines|, i requires 0 <= i < |lines| => Lex(lines[i]))
  }

  /** One iteration of the loop in `retrieve_ids`, on line number `n`. */
  function ParseRecord(st: Store, r: Record, n: nat, codec: TimeCodec): Result<Store, ParseError>
  {
    match r.value
    case None => Failure(MissingValue(n))
    case Some(v) =>
      var ids := Insert(st.ids, r.key, v);
      if r.key != BearerKey then Success(Store(ids, st.expiry))
      else match r.expiryText
        case None => Failure(MissingExpiry(n))
        case Some(text) =>
          match codec.parse(text)
          case None => Failure(BadExpiry(n))
          case Some(t) => Success(Store(ids, Some(t)))
  }

  /** The whole loop of `retrieve_ids`: lines in order, stopping at the first exception. */
  function ParseRecords(rs: seq<Record>, codec: TimeCodec): Result<Store, ParseError>
    decreases |rs|
  {
    if |rs| == 0 then Success(Store([], None))
    else match ParseRecords(rs[..|rs| - 1], codec)
      case Failure(e) => Failure(e)
      case Success(st) => ParseRecord(st, rs[|rs| - 1], |rs|, codec)
  }

  /** Reading the store file holding `text`. */
  function Parse(text: string, codec: TimeCodec): Result<Store, ParseError>
  {
    ParseRecords(LexLines(ReadLines(text)), codec)
  }

  /** The arguments `retrieve_ids` passes to `create_bearer`, each looked up with `dict.get`. */
  datatype Credentials = Credentials(tenantId: Option<string>, clientId: Option<string>, clientSecret: Option<string>)

  function CredentialsOf(ids: Ids): Credentials
  {
    Credentials(Get(ids, "tenant_id"), Get(ids, "client_id"), Get(ids, "client_secret"))
  }

  /** What `retrieve_ids` does after reading the file. */
  datatype Decision = KeepCached | RenewToken(credentials: Credentials)

  /** The errors of `retrieve_ids`: a malformed file, or comparing the clock with a missing expiry. */
  datatype LoadError = Malformed(cause: ParseError) | NoExpiry

  /**
   The expiry check: with `skipCheck` the cached dictionary is kept; otherwise a
   missing expiry is a `TypeError`, and the token is renewed exactly when the clock
   reads strictly later than the stored expiry.
   */
  function Decide(st: Store, skipCheck: bool, now: Instant): (r: Result<Decision, LoadError>)
    ensures skipCheck ==> r == Success(KeepCached)
    ensures !skipCheck && st.expiry.None? ==> r == Failure(NoExpiry)
    ensures !skipCheck && st.expiry.Some? ==>
              r.Success? && (r.value.RenewToken? <==> now > st.expiry.value)
    ensures r.Success? && r.value.RenewToken? ==> r.value.credentials == CredentialsOf(st.ids)
  {
    if skipCheck then Success(KeepCached)
    else match st.expiry
      case None => Failure(NoExpiry)
      case Some(expiry) => Success(if now > expiry then RenewToken(CredentialsOf(st.ids)) else KeepCached)
  }

  /** The line `bearer_to_file` writes for one dictionary entry, without its newline. */
  function StoreLine(entry: (string, string), token: string, expiryText: string): string
  {
    if entry.0 == BearerKey then "bearer," + token + "," + expiryText
    else entry.0 + "," + entry.1
  }

  /** The text `bearer_to_file` writes: one line per entry, in dictionary order. */
  function Serialise(ids: Ids, token: string, expiryText: string): string
  {
    Unlines(seq(|ids|, i requires 0 <= i < |ids| => StoreLine(ids[i], token, expiryText)))
  }

  /** The file after `bearer_to_file`, and the dictionary it returns by reading it back. */
  datatype Rewritten = Rewritten(ids: Ids, store: string)

  /**
   `bearer_to_file(token)` with the clock reading `now`: reads the store, writes it back
   with the bearer line replaced, then reads the new text.
   */
  function BearerToFile(store: string, token: string, now: Instant, codec: TimeCodec): Result<Rewritten, ParseError>
  {
    var expiry := now + OneHour;
    var st :- Parse(store, codec);
    var written := Serialise(st.ids, token, codec.format(expiry));
    var reread :- Parse(written, codec);
    Success(Rewritten(reread.ids, written))
  }

  /** The dictionary `retrieve_ids` returns, the file afterwards, and whether a new token was written. */
  datatype Loaded = Loaded(ids: Ids, store: string, renewed: bool)

  /**
   `retrieve_ids(skip_check)` on the file holding `store`. `now` is the clock reading
   compared with the expiry, `renewAt` the later reading `bearer_to_file` takes, and
   `issue` the token the identity provider grants for the credentials sent to it.
   */
  function RetrieveIds(store: string, skipCheck: bool, now: Instant, renewAt: Instant,
                       issue: Credentials -> string, codec: TimeCodec): Result<Loaded, LoadError>
  {
    match Parse(store, codec)
    case Failure(e) => Failure(Malformed(e))
    case Success(st) =>
      match Decide(st, skipCheck, now)
      case Failure(e) => Failure(e)
      case Success(KeepCached) => Success(Loaded(st.ids, store, false))
      case Success(RenewToken(credentials)) =>
        match BearerToFile(store, issue(credentials), renewAt, codec)
        case Failure(e) => Failure(Malformed(e))
        case Success(w) => Success(Loaded(w.ids, w.store, true))
  }
}
