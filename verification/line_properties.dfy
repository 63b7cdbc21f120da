/**
 What one line of the credential cache reads as: which lines have a value, which keys
 and values can come out of a file, and what each line `bearer_to_file` writes reads
 back as.
 */
module LineProperties {
  import opened Wrappers
  import opened Text
  import opened OrderedDict
  import opened CredentialStore

  /** A key or value that survives being written into a store line and read back unchanged. */
  predicate CleanField(s: string)
  {
    ',' !in s && '\n' !in s && '\r' !in s && (|s| == 0 || (s[0] !in Whitespace && s[|s| - 1] !in Whitespace))
  }

  /** An expiry text that stays the third field of its line: no comma and no line break. */
  predicate CleanExpiryText(s: string)
  {
    ',' !in s && '\n' !in s && '\r' !in s
  }

  /** The dictionaries a read can produce: distinct keys, every key and value clean. */
  ghost predicate CleanIds(ids: Ids)
  {
    Distinct(Keys(ids)) && forall i :: 0 <= i < |ids| ==> CleanField(ids[i].0) && CleanField(ids[i].1)
  }

  /** A record whose key and value (if any) are clean. */
  predicate CleanRecord(r: Record)
  {
    CleanField(r.key) && (r.value.Some? ==> CleanField(r.value.value))
  }

  /** A line has a second field exactly when it contains a comma. */
  lemma LexValue(line: string)
    ensures Lex(line).value.Some? <==> ',' in line
  {
    StripKeepsChar(line, Newline, ',');
    SplitSpec(Strip(line, Newline), ',');
  }

  /** A blank line has no second field. */
  lemma BlankLineHasNoValue()
    ensures Lex("\n").value.None?
  {
    LexValue("\n");
  }

  /** A field of a line without line breaks, once whitespace-stripped, is clean. */
  lemma FieldClean(f: seq<string>, j: nat, c: string)
    requires j < |f| && JoinWith(f, [',']) == c && ',' !in f[j] && '\n' !in c && '\r' !in c
    ensures CleanField(Strip(f[j], Whitespace))
  {
    StripSpec(f[j], Whitespace);
    StripChars(f[j], Whitespace);
    forall ch | ch in f[j]
      ensures ch in c
    {
      JoinWithContains(f, [','], j, ch);
    }
  }

  /** The key and value read from a line of a file are clean fields. */
  lemma LexClean(line: string)
    requires IsLine(line)
    ensures CleanRecord(Lex(line))
  {
    var c := Strip(line, Newline);
    StripLineBreaks(line);
    var f := Fields(line);
    SplitSpec(c, ',');
    FieldClean(f, 0, c);
    if |f| >= 2 {
      FieldClean(f, 1, c);
    }
  }

  /** Every record read from a file is clean. */
  lemma ReadRecordsClean(text: string)
    ensures forall i :: 0 <= i < |ReadLines(text)| ==> CleanRecord(LexLines(ReadLines(text))[i])
  {
    ReadLinesAreLines(text);
    forall i | 0 <= i < |ReadLines(text)|
      ensures CleanRecord(LexLines(ReadLines(text))[i])
    {
      LexClean(ReadLines(text)[i]);
    }
  }

  /** The record a line written by `bearer_to_file` should read back as. */
  function WrittenRecord(entry: (string, string), token: string, expiryText: string): Record
  {
    if entry.0 == BearerKey then Record(BearerKey, Some(token), Some(expiryText))
    else Record(entry.0, Some(entry.1), None)
  }

  /** The fields of a line written by joining comma- and newline-free parts are those parts. */
  lemma FieldsOfWritten(parts: seq<string>)
    requires |parts| >= 1
    requires forall i :: 0 <= i < |parts| ==> ',' !in parts[i] && '\n' !in parts[i]
    ensures Fields(JoinWith(parts, [',']) + "\n") == parts
  {
    JoinWithAvoids(parts, [','], '\n');
    StripTerminator(JoinWith(parts, [',']));
    SplitJoin(parts, ',');
  }

  /**
   A line of two or more comma-separated fields, with or without its newline (the last
   line of a file may lack one), reads as its stripped first two fields and its
   unstripped third; whatever follows the third field plays no part.
   */
  lemma LexJoinedFields(parts: seq<string>, terminator: string)
    requires |parts| >= 2 && (terminator == "" || terminator == "\n")
    requires forall i :: 0 <= i < |parts| ==> ',' !in parts[i] && '\n' !in parts[i]
    ensures Lex(JoinWith(parts, [',']) + terminator)
            == Record(Strip(parts[0], Whitespace), Some(Strip(parts[1], Whitespace)),
                      if |parts| >= 3 then Some(parts[2]) else None)
  {
    if terminator == "" {
      var s := JoinWith(parts, [',']);
      JoinWithAvoids(parts, [','], '\n');
      assert s + terminator == s;
      StripClean(s, Newline);
      SplitJoin(parts, ',');
    } else {
      FieldsOfWritten(parts);
    }
  }

  /**
   A line `bearer_to_file` writes for a clean entry reads back as that entry: `key,value`
   as key and value with no third field, and the bearer line as the token with the
   expiry text as its third field.
   */
  lemma ReadWrittenLine(entry: (string, string), token: string, expiryText: string)
    requires CleanField(entry.0) && CleanField(entry.1) && CleanField(token) && CleanExpiryText(expiryText)
    ensures Lex(StoreLine(entry, token, expiryText) + "\n") == WrittenRecord(entry, token, expiryText)
  {
    if entry.0 == BearerKey {
      var parts := [BearerKey, token, expiryText];
      assert JoinWith(parts[1..], [',']) == token + "," + expiryText;
      assert JoinWith(parts, [',']) == StoreLine(entry, token, expiryText);
      FieldsOfWritten(parts);
      StripClean(BearerKey, Whitespace);
      StripClean(token, Whitespace);
    } else {
      var parts := [entry.0, entry.1];
      assert JoinWith(parts, [',']) == StoreLine(entry, token, expiryText);
      FieldsOfWritten(parts);
      StripClean(entry.0, Whitespace);
      StripClean(entry.1, Whitespace);
    }
  }

  /** The records the lines `bearer_to_file` writes should read back as, in dictionary order. */
  function WrittenRecords(ids: Ids, token: string, expiryText: string): seq<Record>
  {
    seq(|ids|, i requires 0 <= i < |ids| => WrittenRecord(ids[i], token, expiryText))
  }

  /** A store line built from break-free parts contains no line break. */
  lemma StoreLineUnbroken(entry: (string, string), token: string, expiryText: string)
    requires '\n' !in entry.0 && '\r' !in entry.0 && '\n' !in entry.1 && '\r' !in entry.1
    requires '\n' !in token && '\r' !in token && '\n' !in expiryText && '\r' !in expiryText
    ensures '\n' !in StoreLine(entry, token, expiryText) && '\r' !in StoreLine(entry, token, expiryText)
  {
  }

  /**
   Reading back what `bearer_to_file` wrote gives one line per dictionary entry, in
   dictionary order: `key,value` for every entry but the bearer, whose line is
   `bearer,<token>,<expiry text>`.
   */
  lemma SerialisedLines(ids: Ids, token: string, expiryText: string)
    requires forall i :: 0 <= i < |ids| ==> '\n' !in ids[i].0 && '\r' !in ids[i].0 && '\n' !in ids[i].1 && '\r' !in ids[i].1
    requires '\n' !in token && '\r' !in token && '\n' !in expiryText && '\r' !in expiryText
    ensures |ReadLines(Serialise(ids, token, expiryText))| == |ids|
    ensures forall i :: 0 <= i < |ids| ==>
              ReadLines(Serialise(ids, token, expiryText))[i]
              == (if ids[i].0 == BearerKey then "bearer," + token + "," + expiryText else ids[i].0 + "," + ids[i].1) + "\n"
  {
    var ls := seq(|ids|, i requires 0 <= i < |ids| => StoreLine(ids[i], token, expiryText));
    forall i | 0 <= i < |ids|
      ensures '\n' !in ls[i] && '\r' !in ls[i]
    {
      StoreLineUnbroken(ids[i], token, expiryText);
    }
    ReadUnlines(ls);
  }

  /** The rewritten file of a clean dictionary reads back as one written record per entry. */
  lemma LexSerialised(ids: Ids, token: string, expiryText: string)
    requires CleanIds(ids) && CleanField(token) && CleanExpiryText(expiryText)
    ensures LexLines(ReadLines(Serialise(ids, token, expiryText))) == WrittenRecords(ids, token, expiryText)
  {
    SerialisedLines(ids, token, expiryText);
    var lines := ReadLines(Serialise(ids, token, expiryText));
    forall i | 0 <= i < |ids|
      ensures LexLines(lines)[i] == WrittenRecords(ids, token, expiryText)[i]
    {
      assert lines[i] == StoreLine(ids[i], token, expiryText) + "\n";
      ReadWrittenLine(ids[i], token, expiryText);
    }
  }

  /** The token and expiry reach the file only through a bearer entry: without one they change nothing. */
  lemma SerialiseWithoutBearer(ids: Ids, token: string, expiryText: string, token': string, expiryText': string)
    requires BearerKey !in Keys(ids)
    ensures Serialise(ids, token, expiryText) == Serialise(ids, token', expiryText')
  {
    var a := seq(|ids|, i requires 0 <= i < |ids| => StoreLine(ids[i], token, expiryText));
    var b := seq(|ids|, i requires 0 <= i < |ids| => StoreLine(ids[i], token', expiryText'));
    forall i | 0 <= i < |ids|
      ensures a[i] == b[i]
    {
      assert Keys(ids)[i] == ids[i].0;
    }
    assert a == b;
  }
}
