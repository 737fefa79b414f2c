/** The layout of the vault file (Program.cs, LoadVault and Save): line 0 is
    the header, line 1 the encrypted sentinel, and every further line one
    encrypted `service|user|pass` record. */
module VaultFormat {
  import opened Wrappers
  import opened Strings
  import opened Codec
  import Base64

  /** Line 0 of every vault file. */
  const Header: string := "VAULTv1"

  /** "CHECK|OK", the plaintext of line 1: it decrypts to this under every key
      whose keystream agrees with the writing key's on the first eight bytes,
      the writing key among them (PasswordCheckSeesEightBytes). */
  const SentinelPlain: Text := [0x43, 0x48, 0x45, 0x43, 0x4B, 0x7C, 0x4F, 0x4B]

  /** One stored credential (the Entry class of Program.cs). */
  datatype Entry = Entry(service: Text, user: Text, pass: Text)

  /** Why a vault file does not open. */
  datatype LoadError =
    | InvalidVaultFile     // no header: "Invalid vault file."
    | WrongMasterPassword  // no sentinel line, or it decrypts to something else
    | MalformedLine        // a line that is not base64: Convert.FromBase64String throws

  /** No field holds the delimiter, so the record line splits back into the same three fields. */
  predicate PipeFree(e: Entry) {
    Pipe !in e.service && Pipe !in e.user && Pipe !in e.pass
  }

  /** The plaintext of a record line, service|user|pass. */
  function RecordPlain(e: Entry): Text {
    e.service + [Pipe] + e.user + [Pipe] + e.pass
  }

  /** Joining three parts puts the delimiter between them. */
  lemma JoinThree(parts: seq<Text>)
    requires |parts| == 3
    ensures Join(parts, Pipe) == parts[0] + [Pipe] + parts[1] + [Pipe] + parts[2]
  {
    var tail := parts[1..];
    assert tail[1..] == [parts[2]];
    assert Join(tail, Pipe) == parts[1] + [Pipe] + parts[2];
  }

  /** What one line after the sentinel contributes to a load: nothing for a
      blank line or for a plaintext that does not split into exactly three
      fields, an entry otherwise; an error for a line that is not base64. */
  function LineRecord(line: string, key: Text): Result<Option<Entry>, LoadError>
    requires |key| > 0
  {
    if IsBlank(line) then Ok(None)
    else
      match DecryptLine(line, key)
      case None => Err(MalformedLine)
      case Some(plain) =>
        var parts := Split(plain, Pipe);
        if |parts| == 3 then Ok(Some(Entry(parts[0], parts[1], parts[2]))) else Ok(None)
  }

  /** A line fails only when it is not blank and not base64; it yields an
      entry exactly when it is not blank and decrypts to a text of three
      '|'-separated fields, and that entry has no '|' in a field and is
      exactly what the line decrypts to. */
  lemma LineRecordSpec(line: string, key: Text)
    requires |key| > 0
    ensures var r := LineRecord(line, key);
      (r.Err? <==> !IsBlank(line) && DecryptLine(line, key).None?) &&
      (r.Err? ==> r.error == MalformedLine) &&
      (r.Ok? && r.value.Some? <==>
        !IsBlank(line) && DecryptLine(line, key).Some? && |Split(DecryptLine(line, key).value, Pipe)| == 3) &&
      (r.Ok? && r.value.Some? ==>
        PipeFree(r.value.value) && DecryptLine(line, key) == Some(RecordPlain(r.value.value)))
  {
    if !IsBlank(line) && DecryptLine(line, key).Some? {
      var plain := DecryptLine(line, key).value;
      var parts := Split(plain, Pipe);
      if |parts| == 3 {
        JoinSplit(plain, Pipe);
        JoinThree(parts);
      }
    }
  }

  /** The outcome of loading the lines of two consecutive stretches of a file. */
  function Concat(a: Result<seq<Entry>, LoadError>, b: Result<seq<Entry>, LoadError>): Result<seq<Entry>, LoadError> {
    if a.Err? then a else if b.Err? then b else Ok(a.value + b.value)
  }

  /** The entries one line contributes: none, one, or an error. */
  function LineEntries(line: string, key: Text): Result<seq<Entry>, LoadError>
    requires |key| > 0
  {
    match LineRecord(line, key)
    case Err(e) => Err(e)
    case Ok(None) => Ok([])
    case Ok(Some(entry)) => Ok([entry])
  }

  /** The entries of the record lines, in file order (the loop of LoadVault). */
  function Records(lines: seq<string>, key: Text): Result<seq<Entry>, LoadError>
    requires |key| > 0
    decreases |lines|
  {
    if |lines| == 0 then Ok([])
    else Concat(Records(lines[..|lines| - 1], key), LineEntries(lines[|lines| - 1], key))
  }

  /** A load fails only on a malformed line, yields at most one entry per
      line, and every entry it yields is free of '|'. */
  lemma {:induction false} RecordsSpec(lines: seq<string>, key: Text)
    requires |key| > 0
    ensures var r := Records(lines, key);
      (r.Err? ==> r.error == MalformedLine) &&
      (r.Ok? ==> |r.value| <= |lines| && forall k :: 0 <= k < |r.value| ==> PipeFree(r.value[k]))
    decreases |lines|
  {
    if |lines| > 0 {
      RecordsSpec(lines[..|lines| - 1], key);
      LineRecordSpec(lines[|lines| - 1], key);
    }
  }

  /** Loading stretches of lines in sequence does not depend on how they are grouped. */
  lemma ConcatAssoc(x: Result<seq<Entry>, LoadError>, y: Result<seq<Entry>, LoadError>, z: Result<seq<Entry>, LoadError>)
    ensures Concat(Concat(x, y), z) == Concat(x, Concat(y, z))
  {
    if x.Ok? && y.Ok? && z.Ok? {
      assert x.value + y.value + z.value == x.value + (y.value + z.value);
    }
  }

  /** Loading no lines adds nothing. */
  lemma ConcatNone(x: Result<seq<Entry>, LoadError>)
    ensures Concat(x, Ok([])) == x
  {
    if x.Ok? {
      assert x.value + [] == x.value;
    }
  }

  /** Lines are loaded independently and in order: the entries of a file are
      those of its first part followed by those of the rest, with nothing
      merged or reordered. */
  lemma {:induction false} RecordsAppend(a: seq<string>, b: seq<string>, key: Text)
    requires |key| > 0
    ensures Records(a + b, key) == Concat(Records(a, key), Records(b, key))
    decreases |b|
  {
    if |b| == 0 {
      assert a + b == a;
      ConcatNone(Records(a, key));
    } else {
      var b', last := b[..|b| - 1], b[|b| - 1];
      var ab := a + b;
      assert ab[..|ab| - 1] == a + b' && ab[|ab| - 1] == last;
      var ra, rb', rl := Records(a, key), Records(b', key), LineEntries(last, key);
      calc {
        Records(ab, key);
        Concat(Records(a + b', key), rl);
        { RecordsAppend(a, b', key); }
        Concat(Concat(ra, rb'), rl);
        { ConcatAssoc(ra, rb', rl); }
        Concat(ra, Concat(rb', rl));
        Concat(ra, Records(b, key));
      }
    }
  }

  /** Loading one more line of a file adds what that line contributes. */
  lemma RecordsStep(lines: seq<string>, i: nat, key: Text)
    requires |key| > 0 && 2 <= i < |lines|
    ensures Records(lines[2..i + 1], key) == Concat(Records(lines[2..i], key), LineEntries(lines[i], key))
  {
    var s := lines[2..i + 1];
    assert |s| == i - 1 && s[..|s| - 1] == lines[2..i] && s[|s| - 1] == lines[i];
  }

  /** A line that is not base64 fails the load of the lines up to it. */
  lemma MalformedLineFailsPrefix(lines: seq<string>, i: nat, key: Text)
    requires |key| > 0 && 2 <= i < |lines|
    requires LineRecord(lines[i], key).Err?
    ensures Records(lines[2..i + 1], key) == Err(MalformedLine)
  {
    RecordsStep(lines, i, key);
    RecordsSpec(lines[2..i], key);
    assert LineEntries(lines[i], key) == Err(MalformedLine);
  }

  /** A line that is not base64 fails the whole load. */
  lemma MalformedLineFails(lines: seq<string>, i: nat, key: Text)
    requires |key| > 0 && 2 <= i < |lines|
    requires LineRecord(lines[i], key).Err?
    ensures Records(lines[2..], key) == Err(MalformedLine)
  {
    MalformedLineFailsPrefix(lines, i, key);
    RecordsSpec(lines[i + 1..], key);
    RecordsAppend(lines[2..i + 1], lines[i + 1..], key);
    assert lines[2..] == lines[2..i + 1] + lines[i + 1..];
  }

  /** A load fails exactly when some non-blank line is not base64. */
  lemma {:induction false} RecordsFail(lines: seq<string>, key: Text)
    requires |key| > 0
    ensures Records(lines, key).Err? <==> exists i :: 0 <= i < |lines| && LineRecord(lines[i], key).Err?
    decreases |lines|
  {
    if |lines| > 0 {
      var init := lines[..|lines| - 1];
      RecordsFail(init, key);
      if Records(init, key).Err? {
        var i :| 0 <= i < |init| && LineRecord(init[i], key).Err?;
        assert lines[i] == init[i];
      }
    }
  }

  /** LoadVault, as a function of the file's lines. */
  function Parse(lines: seq<string>, key: Text): (r: Result<seq<Entry>, LoadError>)
    requires |key| > 0
    ensures r == Err(InvalidVaultFile) <==> |lines| == 0 || lines[0] != Header
    ensures r == Err(WrongMasterPassword) <==>
      |lines| > 0 && lines[0] == Header &&
      (|lines| < 2 || (DecryptLine(lines[1], key).Some? && DecryptLine(lines[1], key).value != SentinelPlain))
    ensures r.Ok? <==>
      |lines| >= 2 && lines[0] == Header && DecryptLine(lines[1], key) == Some(SentinelPlain) &&
      Records(lines[2..], key).Ok?
    ensures r.Ok? ==> r == Records(lines[2..], key)
  {
    if |lines| == 0 || lines[0] != Header then Err(InvalidVaultFile)
    else if |lines| < 2 then Err(WrongMasterPassword)
    else
      match DecryptLine(lines[1], key)
      case None => Err(MalformedLine)
      case Some(check) =>
        if check != SentinelPlain then Err(WrongMasterPassword)
        else
          RecordsSpec(lines[2..], key);
          Records(lines[2..], key)
  }

  /** One encrypted line per entry, in order. */
  function RecordLines(entries: seq<Entry>, key: Text): (lines: seq<string>)
    requires |key| > 0
  {
    seq(|entries|, i requires 0 <= i < |entries| => EncryptLine(RecordPlain(entries[i]), key))
  }

  /** One more entry adds its line at the end. */
  lemma RecordLinesSnoc(entries: seq<Entry>, i: nat, key: Text)
    requires |key| > 0 && i < |entries|
    ensures RecordLines(entries[..i + 1], key) == RecordLines(entries[..i], key) + [EncryptLine(RecordPlain(entries[i]), key)]
  {
  }

  /** The lines Save writes (and CreateNewVault, for no entries). */
  function Serialize(entries: seq<Entry>, key: Text): (lines: seq<string>)
    requires |key| > 0
    ensures |lines| == 2 + |entries| && lines[0] == Header
    ensures lines[1] == EncryptLine(SentinelPlain, key)
    ensures lines[2..] == RecordLines(entries, key)
  {
    [Header, EncryptLine(SentinelPlain, key)] + RecordLines(entries, key)
  }

  /** The plaintext of a record splits back into its three fields exactly
      when none of them holds '|'. */
  lemma SplitRecord(e: Entry)
    ensures PipeFree(e) ==> Split(RecordPlain(e), Pipe) == [e.service, e.user, e.pass]
    ensures !PipeFree(e) ==> |Split(RecordPlain(e), Pipe)| != 3
  {
    SplitAroundTwo(e.service, e.user, e.pass, Pipe);
    SplitSingle(e.service, Pipe);
    SplitSingle(e.user, Pipe);
    SplitSingle(e.pass, Pipe);
  }

  /** A saved entry loads back as itself exactly when no field holds '|';
      otherwise its line is skipped. */
  lemma SavedRecordLoads(e: Entry, key: Text)
    requires |key| > 0
    ensures LineRecord(EncryptLine(RecordPlain(e), key), key) == if PipeFree(e) then Ok(Some(e)) else Ok(None)
  {
    var line := EncryptLine(RecordPlain(e), key);
    EncryptedLineNotBlank(RecordPlain(e), key);
    DecryptEncrypt(RecordPlain(e), key);
    SplitRecord(e);
  }

  /** The entries that survive a save and a load: those with no '|' in a field, in order. */
  function Storable(entries: seq<Entry>): (r: seq<Entry>)
    ensures |r| <= |entries|
    decreases |entries|
  {
    if |entries| == 0 then []
    else
      var init, last := entries[..|entries| - 1], entries[|entries| - 1];
      Storable(init) + if PipeFree(last) then [last] else []
  }

  /** The storable entries are exactly the pipe-free ones. */
  lemma {:induction false} StorableMembers(entries: seq<Entry>)
    ensures forall e :: e in Storable(entries) <==> e in entries && PipeFree(e)
    decreases |entries|
  {
    if |entries| > 0 {
      var init, last := entries[..|entries| - 1], entries[|entries| - 1];
      StorableMembers(init);
      assert entries == init + [last];
    }
  }

  /** Entries with no '|' in a field all survive. */
  lemma {:induction false} StorableAll(entries: seq<Entry>)
    requires forall k :: 0 <= k < |entries| ==> PipeFree(entries[k])
    ensures Storable(entries) == entries
    decreases |entries|
  {
    if |entries| > 0 {
      StorableAll(entries[..|entries| - 1]);
      assert entries[..|entries| - 1] + [entries[|entries| - 1]] == entries;
    }
  }

  /** Loading the record lines of entries gives back the storable ones, in order. */
  lemma {:induction false} RecordsOfRecordLines(entries: seq<Entry>, key: Text)
    requires |key| > 0
    ensures Records(RecordLines(entries, key), key) == Ok(Storable(entries))
    decreases |entries|
  {
    if |entries| > 0 {
      var n := |entries|;
      var init, last := entries[..n - 1], entries[n - 1];
      var lines := RecordLines(entries, key);
      assert lines[..n - 1] == RecordLines(init, key);
      assert lines[n - 1] == EncryptLine(RecordPlain(last), key);
      RecordsOfRecordLines(init, key);
      SavedRecordLoads(last, key);
      assert LineEntries(lines[n - 1], key) == Ok(if PipeFree(last) then [last] else []);
      assert Storable(entries) == Storable(init) + if PipeFree(last) then [last] else [];
    }
  }

  /** Save followed by a load with the same key gives back the entries, in
      order, except those with a '|' in a field, which are lost. */
  lemma SaveLoadRoundTrip(entries: seq<Entry>, key: Text)
    requires |key| > 0
    ensures Parse(Serialize(entries, key), key) == Ok(Storable(entries))
    ensures (forall k :: 0 <= k < |entries| ==> PipeFree(entries[k])) ==>
      Parse(Serialize(entries, key), key) == Ok(entries)
  {
    DecryptEncrypt(SentinelPlain, key);
    RecordsOfRecordLines(entries, key);
    if forall k :: 0 <= k < |entries| ==> PipeFree(entries[k]) {
      StorableAll(entries);
    }
  }

  /** The password check compares eight decrypted bytes, so a file saved with
      one key passes it under another exactly when their keystreams agree on
      the first eight bytes (a longer key that starts with the same eight
      bytes passes it, for instance). */
  lemma PasswordCheckSeesEightBytes(entries: seq<Entry>, k1: Text, k2: Text)
    requires |k1| > 0 && |k2| > 0
    ensures Parse(Serialize(entries, k1), k2) != Err(WrongMasterPassword) <==>
      forall i :: 0 <= i < |SentinelPlain| ==> KeyByte(k1, i) == KeyByte(k2, i)
  {
    var lines := Serialize(entries, k1);
    DecryptOtherKey(SentinelPlain, k1, k2);
    Base64.DecodeEncode(Xor(SentinelPlain, k1));
    assert DecryptLine(lines[1], k2).Some?;
  }
}
