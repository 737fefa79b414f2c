/** The Vault class of Program.cs: the entries of an unlocked vault, the
    file they are saved to, and the commands that read and change them. */
module VaultEngine {
  import opened Wrappers
  import opened Strings
  import opened Codec
  import opened VaultFormat
  import Base64

  /** The InvalidOperationException "Vault is locked." */
  datatype Fault = VaultLocked

  /** A command that either completes or fails on a locked vault. */
  datatype Outcome = Pass | Fail(fault: Fault)

  /** The two messages of Remove. */
  datatype Removal = Removed | NotFound

  /** One line of ListAll: the service and the masked user name. */
  datatype Row = Row(service: Text, shownUser: Text)

  /** Some entry's service equals `service`, ignoring case. */
  predicate HasService(entries: seq<Entry>, service: Text) {
    exists j :: 0 <= j < |entries| && SameIgnoringCase(entries[j].service, service)
  }

  /** List.FindIndex with an OrdinalIgnoreCase service match: the first match, or -1. */
  function FindIndex(entries: seq<Entry>, service: Text): (i: int)
    ensures -1 <= i < |entries|
    ensures i >= 0 ==> SameIgnoringCase(entries[i].service, service)
    ensures i >= 0 ==> forall j :: 0 <= j < i ==> !SameIgnoringCase(entries[j].service, service)
    ensures i < 0 ==> forall j :: 0 <= j < |entries| ==> !SameIgnoringCase(entries[j].service, service)
    decreases |entries|
  {
    if |entries| == 0 then -1
    else if SameIgnoringCase(entries[0].service, service) then 0
    else
      var k := FindIndex(entries[1..], service);
      if k < 0 then -1 else k + 1
  }

  /** The entries after Add: the first entry with the same service (ignoring
      case) is replaced where it stands, or the new entry goes at the end. */
  function Upserted(entries: seq<Entry>, e: Entry): seq<Entry> {
    var i := FindIndex(entries, e.service);
    if i >= 0 then entries[i := e] else entries + [e]
  }

  /** Add grows the list by one exactly when no entry has the service yet. */
  lemma UpsertedCount(entries: seq<Entry>, e: Entry)
    ensures |Upserted(entries, e)| == if HasService(entries, e.service) then |entries| else |entries| + 1
  {
  }

  /** After Add, the first entry with the service is the one just added. */
  lemma UpsertedFound(entries: seq<Entry>, e: Entry)
    ensures var r := Upserted(entries, e);
      0 <= FindIndex(r, e.service) && r[FindIndex(r, e.service)] == e
  {
    var r := Upserted(entries, e);
    var i := FindIndex(entries, e.service);
    if i < 0 {
      assert forall j :: 0 <= j < |entries| ==> r[j] == entries[j];
      assert SameIgnoringCase(r[|entries|].service, e.service);
    } else {
      assert SameIgnoringCase(r[i].service, e.service);
    }
  }

  /** Add changes at most the position of the first match: every other
      position keeps its entry, and the first match, if any, stays first. */
  lemma UpsertedInPlace(entries: seq<Entry>, e: Entry)
    ensures var r, i := Upserted(entries, e), FindIndex(entries, e.service);
      (forall j :: 0 <= j < |entries| && j != i ==> r[j] == entries[j]) &&
      (i >= 0 ==> FindIndex(r, e.service) == i && r[i] == e) &&
      (i < 0 ==> r == entries + [e])
  {
    var r, i := Upserted(entries, e), FindIndex(entries, e.service);
    if i >= 0 {
      FindIndexFirst(r, e.service, i);
    }
  }

  /** An index whose entry matches, with no match before it, is what FindIndex returns. */
  lemma FindIndexFirst(entries: seq<Entry>, service: Text, i: nat)
    requires i < |entries| && SameIgnoringCase(entries[i].service, service)
    requires forall j :: 0 <= j < i ==> !SameIgnoringCase(entries[j].service, service)
    ensures FindIndex(entries, service) == i
  {
  }

  /** Add keeps every entry of another service and adds nothing but `e`. */
  lemma UpsertedOthers(entries: seq<Entry>, e: Entry)
    ensures forall x :: x in entries && !SameIgnoringCase(x.service, e.service) ==> x in Upserted(entries, e)
    ensures forall x :: x in Upserted(entries, e) ==> x == e || x in entries
  {
    var r := Upserted(entries, e);
    var i := FindIndex(entries, e.service);
    forall x | x in entries && !SameIgnoringCase(x.service, e.service)
      ensures x in r
    {
      var j :| 0 <= j < |entries| && entries[j] == x;
      assert r[j] == x;
    }
  }

  /** No two entries share a service, ignoring case. */
  predicate DistinctServices(entries: seq<Entry>) {
    forall i, j :: 0 <= i < j < |entries| ==> !SameIgnoringCase(entries[i].service, entries[j].service)
  }

  /** Add never creates a second entry for a service. */
  lemma UpsertedDistinct(entries: seq<Entry>, e: Entry)
    requires DistinctServices(entries)
    ensures DistinctServices(Upserted(entries, e))
  {
    var r := Upserted(entries, e);
    var k := FindIndex(entries, e.service);
    forall i, j | 0 <= i < j < |r|
      ensures !SameIgnoringCase(r[i].service, r[j].service)
    {
      if k >= 0 && (i == k || j == k) {
        var other := if i == k then j else i;
        assert r[other] == entries[other];
        assert !SameIgnoringCase(entries[k].service, entries[other].service) by {
          if i == k {
            assert !SameIgnoringCase(entries[i].service, entries[j].service);
          } else {
            assert !SameIgnoringCase(entries[i].service, entries[j].service);
          }
        }
      } else if k < 0 && j == |entries| {
        assert r[i] == entries[i];
      } else {
        assert r[i] == entries[i] && r[j] == entries[j];
      }
    }
  }

  /** A list holds the service exactly when its head or its tail does. */
  lemma HasServiceCons(entries: seq<Entry>, service: Text)
    requires |entries| > 0
    ensures HasService(entries, service) <==>
      SameIgnoringCase(entries[0].service, service) || HasService(entries[1..], service)
  {
    if HasService(entries, service) {
      var j :| 0 <= j < |entries| && SameIgnoringCase(entries[j].service, service);
      if j > 0 {
        assert entries[1..][j - 1] == entries[j];
      }
    }
    if HasService(entries[1..], service) {
      var j :| 0 <= j < |entries[1..]| && SameIgnoringCase(entries[1..][j].service, service);
      assert entries[j + 1] == entries[1..][j];
    }
  }

  /** List.RemoveAll with an OrdinalIgnoreCase service match. */
  function Without(entries: seq<Entry>, service: Text): (r: seq<Entry>)
    ensures |r| <= |entries|
    decreases |entries|
  {
    if |entries| == 0 then []
    else
      var rest := Without(entries[1..], service);
      if SameIgnoringCase(entries[0].service, service) then rest else [entries[0]] + rest
  }

  /** RemoveAll shrinks the list exactly when some entry has the service. */
  lemma {:induction false} WithoutShrinks(entries: seq<Entry>, service: Text)
    ensures |Without(entries, service)| == |entries| <==> !HasService(entries, service)
    decreases |entries|
  {
    if |entries| > 0 {
      WithoutShrinks(entries[1..], service);
      HasServiceCons(entries, service);
    }
  }

  /** RemoveAll removes exactly the entries of the service. */
  lemma {:induction false} WithoutMembers(entries: seq<Entry>, service: Text)
    ensures forall x :: x in Without(entries, service) <==> x in entries && !SameIgnoringCase(x.service, service)
    decreases |entries|
  {
    if |entries| > 0 {
      WithoutMembers(entries[1..], service);
      assert entries == [entries[0]] + entries[1..];
    }
  }

  /** RemoveAll keeps the order of the entries it leaves. */
  lemma {:induction false} WithoutAppend(a: seq<Entry>, b: seq<Entry>, service: Text)
    ensures Without(a + b, service) == Without(a, service) + Without(b, service)
    decreases |a|
  {
    if |a| == 0 {
      assert a + b == b;
    } else {
      WithoutAppend(a[1..], b, service);
      assert (a + b)[0] == a[0] && (a + b)[1..] == a[1..] + b;
      var head := if SameIgnoringCase(a[0].service, service) then [] else [a[0]];
      assert Without(a + b, service) == head + Without(a[1..] + b, service);
      assert Without(a, service) == head + Without(a[1..], service);
      assert head + (Without(a[1..], service) + Without(b, service))
          == head + Without(a[1..], service) + Without(b, service);
    }
  }

  /** Removing a service that is not there changes nothing. */
  lemma {:induction false} WithoutAbsent(entries: seq<Entry>, service: Text)
    requires !HasService(entries, service)
    ensures Without(entries, service) == entries
    decreases |entries|
  {
    if |entries| > 0 {
      HasServiceCons(entries, service);
      WithoutAbsent(entries[1..], service);
      assert entries == [entries[0]] + entries[1..];
    }
  }

  /** Removing a service just added to a vault that did not hold it undoes the Add. */
  lemma RemoveUndoesAdd(entries: seq<Entry>, e: Entry)
    requires !HasService(entries, e.service)
    ensures Without(Upserted(entries, e), e.service) == entries
  {
    WithoutAppend(entries, [e], e.service);
    WithoutAbsent(entries, e.service);
    assert Without([e], e.service) == [];
  }

  /** The entries Find prints: those whose lower-cased service contains the
      lower-cased term, in order. */
  function Matching(entries: seq<Entry>, term: Text): (r: seq<Entry>)
    ensures |r| <= |entries|
    decreases |entries|
  {
    if |entries| == 0 then []
    else
      var init, last := entries[..|entries| - 1], entries[|entries| - 1];
      Matching(init, term) + if Contains(Lower(last.service), Lower(term)) then [last] else []
  }

  /** Find prints exactly the entries whose service contains the term, ignoring case. */
  lemma {:induction false} MatchingMembers(entries: seq<Entry>, term: Text)
    ensures forall x :: x in Matching(entries, term) <==> x in entries && Contains(Lower(x.service), Lower(term))
    decreases |entries|
  {
    if |entries| > 0 {
      var init, last := entries[..|entries| - 1], entries[|entries| - 1];
      MatchingMembers(init, term);
      assert entries == init + [last];
    }
  }

  /** Find keeps the stored order: the matches of a list are those of its
      first part followed by those of the rest. */
  lemma {:induction false} MatchingAppend(a: seq<Entry>, b: seq<Entry>, term: Text)
    ensures Matching(a + b, term) == Matching(a, term) + Matching(b, term)
    decreases |b|
  {
    if |b| == 0 {
      assert a + b == a;
    } else {
      var b', last := b[..|b| - 1], b[|b| - 1];
      MatchingAppend(a, b', term);
      assert (a + b)[..|a + b| - 1] == a + b' && (a + b)[|a + b| - 1] == last;
    }
  }

  /** An empty search term matches every entry. */
  lemma {:induction false} MatchingEmptyTerm(entries: seq<Entry>)
    ensures Matching(entries, []) == entries
    decreases |entries|
  {
    if |entries| > 0 {
      var init := entries[..|entries| - 1];
      MatchingEmptyTerm(init);
      ContainsEmpty(Lower(entries[|entries| - 1].service));
      assert Lower([]) == [];
      assert init + [entries[|entries| - 1]] == entries;
    }
  }

  /** Searching for a stored service, in any case, finds its entry. */
  lemma MatchingFindsService(entries: seq<Entry>, e: Entry, term: Text)
    requires e in entries && SameIgnoringCase(term, e.service)
    ensures e in Matching(entries, term)
  {
    MatchingMembers(entries, term);
    ContainsSelf(Lower(e.service));
  }

  /** The search ignores the case of the term. */
  lemma MatchingIgnoresCase(entries: seq<Entry>, term: Text)
    ensures Matching(entries, Lower(term)) == Matching(entries, term)
  {
    LowerLower(term);
  }

  /** The byte '*'. */
  const Star: byte := 0x2A

  class Vault {
    /** The master password, as UTF-8 bytes. */
    const master: Text
    /** The entries of an unlocked vault; None when the vault is locked. */
    var entries: Option<seq<Entry>>
    /** The lines of the vault file. */
    var disk: seq<string>
    /** Why the vault is locked (what LoadVault printed). */
    var failure: Option<LoadError>

    /** A locked vault is one whose file did not open, for the recorded
        reason; an unlocked vault's file loads back to its storable entries. */
    ghost predicate Valid()
      reads this
    {
      |master| > 0 &&
      (entries.None? <==> failure.Some?) &&
      (failure.Some? ==> Parse(disk, master) == Err(failure.value)) &&
      (entries.Some? ==> Parse(disk, master) == Ok(Storable(entries.value)))
    }

    /** IsUnlocked. */
    predicate IsUnlocked()
      reads this
    {
      entries.Some?
    }

    /** Opens the vault file, or creates it when `file` is None (it does not exist). */
    constructor (file: Option<seq<string>>, masterKey: Text)
      requires |masterKey| > 0
      ensures Valid() && master == masterKey
      ensures file.Some? ==> disk == file.value
      ensures file.Some? && Parse(file.value, masterKey).Ok? ==>
        entries == Some(Parse(file.value, masterKey).value)
      ensures file.Some? && Parse(file.value, masterKey).Err? ==>
        entries == None && failure == Some(Parse(file.value, masterKey).error)
      ensures file.None? ==> entries == Some([]) && disk == Serialize([], masterKey)
    {
      master := masterKey;
      entries := Some([]);
      failure := None;
      disk := if file.Some? then file.value else [];
      new;
      if file.Some? {
        LoadVault();
        if entries.Some? {
          RecordsSpec(disk[2..], master);
          StorableAll(entries.value);
        }
      } else {
        CreateNewVault();
        SaveLoadRoundTrip([], master);
      }
    }

    /** Reads the file: the header, the password check against the sentinel
        line, then one entry per record line that splits into three fields. */
    method LoadVault()
      requires |master| > 0 && entries == Some([]) && failure == None
      modifies this
      ensures disk == old(disk)
      ensures Parse(disk, master).Ok? ==> entries == Some(Parse(disk, master).value) && failure == None
      ensures Parse(disk, master).Err? ==> entries == None && failure == Some(Parse(disk, master).error)
    {
      var lines := disk;
      if |lines| == 0 || lines[0] != Header {
        entries, failure := None, Some(InvalidVaultFile);
        return;
      }
      if |lines| < 2 {
        entries, failure := None, Some(WrongMasterPassword);
        return;
      }
      var check := Decrypt(lines[1], master);
      if check.None? {
        entries, failure := None, Some(MalformedLine);
        return;
      }
      if check.value != SentinelPlain {
        entries, failure := None, Some(WrongMasterPassword);
        return;
      }
      for i := 2 to |lines|
        invariant entries.Some? && failure == None && disk == lines
        invariant Records(lines[2..i], master) == Ok(entries.value)
      {
        RecordsStep(lines, i, master);
        if IsBlank(lines[i]) {
          assert entries.value + [] == entries.value;
          continue;
        }
        var dec := Decrypt(lines[i], master);
        if dec.None? {
          MalformedLineFails(lines, i, master);
          entries, failure := None, Some(MalformedLine);
          return;
        }
        var parts := Split(dec.value, Pipe);
        if |parts| == 3 {
          entries := Some(entries.value + [Entry(parts[0], parts[1], parts[2])]);
        } else {
          assert entries.value + [] == entries.value;
        }
      }
      assert lines[2..|lines|] == lines[2..];
      assert Parse(lines, master) == Records(lines[2..], master);
    }

    /** Writes a file holding only the header and the sentinel line. */
    method CreateNewVault()
      requires |master| > 0
      modifies this
      ensures disk == Serialize([], master)
      ensures entries == old(entries) && failure == old(failure)
    {
      var sentinel := Encrypt(SentinelPlain, master);
      disk := [Header, sentinel];
      assert RecordLines([], master) == [];
    }

    /** Passes on an unlocked vault, fails with VaultLocked on a locked one. */
    method EnsureUnlocked() returns (o: Outcome)
      ensures o.Pass? <==> IsUnlocked()
      ensures o.Fail? ==> o.fault == VaultLocked
    {
      if entries.None? {
        return Fail(VaultLocked);
      }
      return Pass;
    }

    /** Adds an entry, or replaces the first one for the same service
        (ignoring case), then saves. */
    method Add(service: Text, user: Text, pass: Text) returns (o: Outcome)
      requires Valid()
      modifies this
      ensures Valid()
      ensures o.Pass? <==> old(IsUnlocked())
      ensures o.Fail? ==> entries == old(entries) && disk == old(disk) && failure == old(failure)
      ensures o.Pass? ==>
        entries == Some(Upserted(old(entries).value, Entry(service, user, pass))) &&
        disk == Serialize(entries.value, master)
    {
      o := EnsureUnlocked();
      if o.Fail? {
        return;
      }
      var es := entries.value;
      var e := Entry(service, user, pass);
      var idx := FindIndex(es, service);
      if idx >= 0 {
        entries := Some(es[idx := e]);
      } else {
        entries := Some(es + [e]);
      }
      assert entries.value == Upserted(es, e);
      o := Save();
      SaveLoadRoundTrip(entries.value, master);
    }

    /** The rows ListAll prints: each service with its masked user name, in order. */
    method ListAll() returns (r: Result<seq<Row>, Fault>)
      ensures r.Ok? <==> IsUnlocked()
      ensures r.Err? ==> r.error == VaultLocked
      ensures r.Ok? ==> (|r.value| == |entries.value| &&
        forall i :: 0 <= i < |r.value| ==>
          r.value[i] == Row(entries.value[i].service, Mask(entries.value[i].user)))
    {
      var o := EnsureUnlocked();
      if o.Fail? {
        return Err(o.fault);
      }
      var es := entries.value;
      var rows: seq<Row> := [];
      for i := 0 to |es|
        invariant |rows| == i
        invariant forall j :: 0 <= j < i ==> rows[j] == Row(es[j].service, Mask(es[j].user))
      {
        rows := rows + [Row(es[i].service, Mask(es[i].user))];
      }
      return Ok(rows);
    }

    /** The entries Find prints, with their passwords: those whose service
        contains the term, ignoring case. */
    method Find(term: Text) returns (r: Result<seq<Entry>, Fault>)
      ensures r.Ok? <==> IsUnlocked()
      ensures r.Err? ==> r.error == VaultLocked
      ensures r.Ok? ==> r.value == Matching(entries.value, term)
    {
      var o := EnsureUnlocked();
      if o.Fail? {
        return Err(o.fault);
      }
      var es := entries.value;
      var lowered := Lower(term);
      var found: seq<Entry> := [];
      for i := 0 to |es|
        invariant found == Matching(es[..i], term)
      {
        assert es[..i + 1][..i] == es[..i];
        if Contains(Lower(es[i].service), lowered) {
          found := found + [es[i]];
        }
      }
      assert es[..|es|] == es;
      return Ok(found);
    }

    /** Removes every entry for the service (ignoring case) and saves,
        whether or not one was removed. */
    method Remove(service: Text) returns (r: Result<Removal, Fault>)
      requires Valid()
      modifies this
      ensures Valid()
      ensures r.Ok? <==> old(IsUnlocked())
      ensures r.Err? ==> r.error == VaultLocked && entries == old(entries) && disk == old(disk) && failure == old(failure)
      ensures r.Ok? ==>
        entries == Some(Without(old(entries).value, service)) &&
        disk == Serialize(entries.value, master) &&
        (r.value == Removed <==> HasService(old(entries).value, service))
    {
      var o := EnsureUnlocked();
      if o.Fail? {
        return Err(o.fault);
      }
      var before := |entries.value|;
      WithoutShrinks(entries.value, service);
      entries := Some(Without(entries.value, service));
      o := Save();
      SaveLoadRoundTrip(entries.value, master);
      return Ok(if before == |entries.value| then NotFound else Removed);
    }

    /** Writes the header, the sentinel line and one line per entry. */
    method Save() returns (o: Outcome)
      requires |master| > 0
      modifies this
      ensures o.Pass? <==> IsUnlocked()
      ensures entries == old(entries) && failure == old(failure)
      ensures o.Pass? ==> disk == Serialize(entries.value, master)
      ensures o.Fail? ==> o.fault == VaultLocked && disk == old(disk)
    {
      o := EnsureUnlocked();
      if o.Fail? {
        return;
      }
      var es := entries.value;
      var sentinel := Encrypt(SentinelPlain, master);
      var lines := [Header, sentinel];
      for i := 0 to |es|
        invariant lines == [Header, sentinel] + RecordLines(es[..i], master)
        invariant entries == old(entries) && failure == old(failure) && disk == old(disk)
      {
        var line := Encrypt(RecordPlain(es[i]), master);
        RecordLinesSnoc(es, i, master);
        lines := lines + [line];
      }
      assert es[..|es|] == es;
      disk := lines;
    }

    /** Combines every byte of the buffer with the keystream, in place. */
    static method ApplyKey(data: array<byte>, key: Text)
      requires |key| > 0
      modifies data
      ensures data[..] == Xor(old(data[..]), key)
    {
      for i := 0 to data.Length
        invariant forall j :: 0 <= j < i ==> data[j] == XorByte(old(data[j]), KeyByte(key, j))
        invariant forall j :: i <= j < data.Length ==> data[j] == old(data[j])
      {
        data[i] := XorByte(data[i], KeyByte(key, i));
      }
    }

    /** The line written to the file for a plaintext. */
    static method Encrypt(plain: Text, key: Text) returns (line: string)
      requires |key| > 0
      ensures line == EncryptLine(plain, key)
    {
      var data := new byte[|plain|](i requires 0 <= i < |plain| => plain[i]);
      assert data[..] == plain;
      ApplyKey(data, key);
      line := Base64.Encode(data[..]);
    }

    /** The plaintext of a line, or None where the line is not base64 and
        Convert.FromBase64String throws. */
    static method Decrypt(line: string, key: Text) returns (plain: Option<Text>)
      requires |key| > 0
      ensures plain == DecryptLine(line, key)
    {
      var decoded := Base64.Decode(line);
      if decoded.None? {
        return None;
      }
      var bytes := decoded.value;
      var data := new byte[|bytes|](i requires 0 <= i < |bytes| => bytes[i]);
      assert data[..] == bytes;
      ApplyKey(data, key);
      return Some(data[..]);
    }

    /** How ListAll shows a user name: "**" for an empty one, all stars for
        one or two characters, otherwise the first and last characters with
        stars between. */
    static function Mask(s: Text): (m: Text)
      ensures |s| == 0 ==> m == [Star, Star]
      ensures |s| > 0 ==> |m| == |s|
      ensures 0 < |s| <= 2 ==> forall i :: 0 <= i < |m| ==> m[i] == Star
      ensures |s| > 2 ==> (m[0] == s[0] && m[|s| - 1] == s[|s| - 1] &&
        forall i :: 0 < i < |s| - 1 ==> m[i] == Star)
    {
      if |s| == 0 then [Star, Star]
      else if |s| <= 2 then seq(|s|, _ => Star)
      else [s[0]] + seq(|s| - 2, _ => Star) + [s[|s| - 1]]
    }
  }
}
