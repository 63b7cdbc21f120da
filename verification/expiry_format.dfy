/**
 The expiry text of the bearer line: `bearer_to_file` writes it with `str(datetime)`
 and `retrieve_ids` reads it with `datetime.strptime(text, "%Y-%m-%d %H:%M:%S.%f")`.
 The date and time of day down to whole seconds is left abstract; the fraction of a
 second is modelled exactly, because that is where writing and reading disagree:
 `str(datetime)` leaves the fraction out when the microseconds are zero, and `%f`
 then has nothing to match.
 */
module ExpiryFormat {
  import opened Wrappers
  import opened Text
  import opened OrderedDict
  import opened CredentialStore
  import opened LineProperties
  import opened StoreProperties

  const MicrosPerSecond := 1_000_000

  /** `%Y-%m-%d %H:%M:%S` on a count of whole seconds: how it is written and read back. */
  datatype SecondsFormat = SecondsFormat(format: int -> string, parse: string -> Option<int>)

  /** A seconds format whose texts read back and contain no '.', ',' or line break. */
  ghost predicate WellBehaved(sf: SecondsFormat)
  {
    forall s :: sf.parse(sf.format(s)) == Some(s) && '.' !in sf.format(s) && CleanExpiryText(sf.format(s))
  }

  // ---------------------------------------------------------------------------
  // Decimal digits

  function Pow10(k: nat): nat
  {
    if k == 0 then 1 else 10 * Pow10(k - 1)
  }

  function DigitChar(d: nat): char
    requires d < 10
  {
    "0123456789"[d]
  }

  function DigitValue(c: char): Option<nat>
  {
    if '0' <= c <= '9' then Some(c as int - '0' as int) else None
  }

  /** The last `k` decimal digits of `n`, most significant first, zero-padded. */
  function Digits(n: nat, k: nat): string
  {
    if k == 0 then "" else Digits(n / 10, k - 1) + [DigitChar(n % 10)]
  }

  /** The number a string of decimal digits denotes, or `None` if a character is not a digit. */
  function DigitsValue(s: string): Option<nat>
  {
    if |s| == 0 then Some(0)
    else match DigitsValue(s[..|s| - 1])
      case None => None
      case Some(v) =>
        match DigitValue(s[|s| - 1])
        case None => None
        case Some(d) => Some(10 * v + d)
  }

  /** A number below `10^k` written with `k` digits reads back as itself. */
  lemma {:induction false} DigitsRoundTrip(n: nat, k: nat)
    requires n < Pow10(k)
    ensures |Digits(n, k)| == k
    ensures DigitsValue(Digits(n, k)) == Some(n)
    ensures forall i :: 0 <= i < k ==> '0' <= Digits(n, k)[i] <= '9'
  {
    if k > 0 {
      assert n / 10 < Pow10(k - 1);
      DigitsRoundTrip(n / 10, k - 1);
      var s := Digits(n, k);
      assert s[..|s| - 1] == Digits(n / 10, k - 1);
      assert s[|s| - 1] == DigitChar(n % 10);
      assert DigitValue(DigitChar(n % 10)) == Some(n % 10);
      assert DigitsValue(s) == Some(10 * (n / 10) + n % 10);
    }
  }

  /** `%f` on reading: one to six digits, padded with zeros on the right to microseconds. */
  function ParseFraction(s: string): Option<nat>
  {
    if 1 <= |s| <= 6 then
      match DigitsValue(s)
      case None => None
      case Some(v) => Some(v * Pow10(6 - |s|))
    else None
  }

  // ---------------------------------------------------------------------------
  // Writing and reading the expiry

  /** `str(datetime)`: whole seconds, then `.ffffff` only when the microseconds are not zero. */
  function StrDatetime(sf: SecondsFormat, t: Instant): string
  {
    var us := t % MicrosPerSecond;
    sf.format(t / MicrosPerSecond) + (if us == 0 then "" else "." + Digits(us, 6))
  }

  /** `strftime("%Y-%m-%d %H:%M:%S.%f")`: the fraction is always written, as six digits. */
  function FixedDatetime(sf: SecondsFormat, t: Instant): string
  {
    sf.format(t / MicrosPerSecond) + "." + Digits(t % MicrosPerSecond, 6)
  }

  /** `datetime.strptime(text, "%Y-%m-%d %H:%M:%S.%f")`, `None` where it raises `ValueError`. */
  function Strptime(sf: SecondsFormat, text: string): Option<Instant>
  {
    var i := IndexOf(text, '.');
    if i == |text| then None
    else match sf.parse(text[..i])
      case None => None
      case Some(s) =>
        match ParseFraction(text[i + 1..])
        case None => None
        case Some(us) => Some(s * MicrosPerSecond + us)
  }

  /** The expiry codec `bearer_to_file` and `retrieve_ids` use together. */
  function AsWrittenCodec(sf: SecondsFormat): TimeCodec
  {
    TimeCodec(t => StrDatetime(sf, t), text => Strptime(sf, text))
  }

  /** The same reader with the fraction always written. */
  function FixedCodec(sf: SecondsFormat): TimeCodec
  {
    TimeCodec(t => FixedDatetime(sf, t), text => Strptime(sf, text))
  }

  /** The first '.' of a text whose head holds none is the one right after the head. */
  lemma IndexOfAfter(head: string, tail: string)
    requires '.' !in head
    ensures IndexOf(head + "." + tail, '.') == |head|
  {
    var s := head + "." + tail;
    assert s[|head|] == '.';
    forall j | 0 <= j < |head|
      ensures s[j] != '.'
    {
      assert s[j] == head[j];
    }
  }

  /** The fixed-width expiry text reads back as the instant it was written from. */
  lemma FixedDatetimeRoundTrip(sf: SecondsFormat, t: Instant)
    requires WellBehaved(sf)
    ensures Strptime(sf, FixedDatetime(sf, t)) == Some(t)
    ensures CleanExpiryText(FixedDatetime(sf, t))
  {
    var head := sf.format(t / MicrosPerSecond);
    var frac := Digits(t % MicrosPerSecond, 6);
    var text := FixedDatetime(sf, t);
    assert Pow10(6) == MicrosPerSecond;
    DigitsRoundTrip(t % MicrosPerSecond, 6);
    IndexOfAfter(head, frac);
    assert text[..|head|] == head;
    assert text[|head| + 1..] == frac;
    assert ParseFraction(frac) == Some(t % MicrosPerSecond);
    assert ',' !in frac && '\n' !in frac && '\r' !in frac;
  }

  /** With a non-zero fraction, `str(datetime)` writes the fixed-width text and so reads back. */
  lemma StrDatetimeReadsFraction(sf: SecondsFormat, t: Instant)
    requires WellBehaved(sf) && t % MicrosPerSecond != 0
    ensures Strptime(sf, StrDatetime(sf, t)) == Some(t)
  {
    FixedDatetimeRoundTrip(sf, t);
    assert StrDatetime(sf, t) == FixedDatetime(sf, t);
  }

  /** On a whole second, `str(datetime)` writes no '.', and the reader rejects the text. */
  lemma WholeSecondUnreadable(sf: SecondsFormat, t: Instant)
    requires WellBehaved(sf) && t % MicrosPerSecond == 0
    ensures Strptime(sf, StrDatetime(sf, t)).None?
    ensures CleanExpiryText(StrDatetime(sf, t))
  {
    assert StrDatetime(sf, t) == sf.format(t / MicrosPerSecond);
  }

  /**
   As written: renewing the token when the clock reads exactly one hour before a whole
   second makes `bearer_to_file` fail when it reads back the file it has just written.
   */
  lemma AsWrittenRenewalFails(sf: SecondsFormat, store: string, token: string, now: Instant)
    requires WellBehaved(sf)
    requires Parse(store, AsWrittenCodec(sf)).Success?
    requires BearerKey in Keys(Parse(store, AsWrittenCodec(sf)).value.ids)
    requires CleanField(token)
    requires (now + OneHour) % MicrosPerSecond == 0
    ensures BearerToFile(store, token, now, AsWrittenCodec(sf)).Failure?
    ensures BearerToFile(store, token, now, AsWrittenCodec(sf)).error.BadExpiry?
  {
    WholeSecondUnreadable(sf, now + OneHour);
    BearerToFileUnreadableExpiry(store, token, now, AsWrittenCodec(sf));
  }

  /**
   Corrected: with the fraction always written, `bearer_to_file` succeeds at every clock
   reading and returns the old dictionary with only the bearer value replaced.
   */
  lemma FixedRenewalSucceeds(sf: SecondsFormat, store: string, token: string, now: Instant)
    requires WellBehaved(sf)
    requires Parse(store, FixedCodec(sf)).Success?
    requires CleanField(token)
    ensures var r := BearerToFile(store, token, now, FixedCodec(sf));
            && r.Success?
            && r.value.ids == SetExisting(Parse(store, FixedCodec(sf)).value.ids, BearerKey, token)
  {
    FixedDatetimeRoundTrip(sf, now + OneHour);
    BearerToFileReplacesToken(store, token, now, FixedCodec(sf));
  }

  /**
   As written, the damage outlasts the call: the file `bearer_to_file` has already
   written before its failing re-read makes every later `retrieve_ids` fail with
   `ValueError`, whatever the clock and whether or not the check is skipped.
   */
  lemma BrokenStoreStaysBroken(sf: SecondsFormat, store: string, token: string, now: Instant,
                               skipCheck: bool, later: Instant, renewAt: Instant, issue: Credentials -> string)
    requires WellBehaved(sf)
    requires Parse(store, AsWrittenCodec(sf)).Success?
    requires BearerKey in Keys(Parse(store, AsWrittenCodec(sf)).value.ids)
    requires CleanField(token)
    requires (now + OneHour) % MicrosPerSecond == 0
    ensures var written := Serialise(Parse(store, AsWrittenCodec(sf)).value.ids, token, StrDatetime(sf, now + OneHour));
            var r := RetrieveIds(written, skipCheck, later, renewAt, issue, AsWrittenCodec(sf));
            && r.Failure? && r.error.Malformed? && r.error.cause.BadExpiry?
  {
    var c := AsWrittenCodec(sf);
    var ids := Parse(store, c).value.ids;
    var text := StrDatetime(sf, now + OneHour);
    WholeSecondUnreadable(sf, now + OneHour);
    ReadIdsClean(store, c);
    LexSerialised(ids, token, text);
    WrittenBadExpiry(ids, token, text, c);
  }
}
