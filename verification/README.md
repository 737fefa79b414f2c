# Vault: a verified model of a one-file password store

The modelled program is a console password store. Its `Vault` class keeps a list of
credentials (service, user name, password) in one text file. Each line of the file is
encrypted with the master password: the UTF-8 bytes are combined by exclusive or with
the key bytes, repeating the key as often as needed, and the result is written as base64.

- Line 0 of the file is the header `VAULTv1`.
- Line 1 is the encryption of the sentinel `CHECK|OK`, which serves as the password
  check. It decrypts to the sentinel under any key whose keystream agrees with the writing
  key's on the first eight bytes, the right key among them.
- Every further line is one encrypted `service|user|pass` record.

A vault whose file does not open is locked. Every command on a locked vault fails with
"Vault is locked."

The model has six modules, one per file:

- `Wrappers` (`wrappers.dfy`): `Option` and `Result`, standing in for `null` and for
  exceptions.
- `Strings` (`strings.dfy`): text as UTF-8 bytes, ASCII case folding, `Split`/`Join` on a
  delimiter, and `Char.IsWhiteSpace`.
- `Base64` (`base64.dfy`): padded base64 from section 4 of RFC 4648. Decoding gives `None`
  where `Convert.FromBase64String` throws.
- `Codec` (`codec.dfy`): the keystream exclusive or, and the `Encrypt`/`Decrypt` line
  functions.
- `VaultFormat` (`vault_format.dfy`): the file layout. `Parse` is what `LoadVault` computes
  from the lines. `Serialize` is what `Save` writes.
- `VaultEngine` (`vault.dfy`): the `Vault` class and the specification functions of its
  list operations. The class fields are the master key, `entries` (`None` when locked),
  the file's lines `disk`, and the reason for a lock.

The class invariant `Valid()` ties the state to the file:

- A locked vault's file fails to parse, for the recorded reason.
- An unlocked vault's file parses back to its entries, leaving out only those that hold a
  `|` in a field.

Every state-changing method keeps this invariant. Each method is specified by the
functions of `VaultFormat` and `VaultEngine`, and the lemmas beside those functions prove
what the program promises about them.

Two properties surface weaknesses of the program, which the model reproduces as written:

- An entry with a `|` in any field is saved but skipped on the next load, so it is
  silently lost (`VaultFormat.SavedRecordLoads`, `VaultFormat.SaveLoadRoundTrip`).
- The password check compares only the eight bytes of the sentinel. A key passes it
  exactly when its keystream agrees with the right key's on the first eight bytes (for
  example, a longer password that starts with the same eight characters). See
  `VaultFormat.PasswordCheckSeesEightBytes` and `Codec.DecryptOtherKey`.

Three behaviours of the code are easy to miss:

- A record line that is not valid base64 makes `Convert.FromBase64String` throw out of
  the constructor. It is not skipped.
- `Remove` rewrites the file even when nothing was removed. The file stays byte-identical
  only if it was already in the form `Save` writes.
- `Mask("bob")` is `b*b`: a three-character name keeps its first and last character.

## Model

| member | source | states |
|---|---|---|
| Strings.Split | Program.cs:73 | `String.Split('|')` gives at least one part, and no part contains the delimiter |
| Strings.JoinSplit | Program.cs:73 | joining the parts of a split with the delimiter gives back the text, so splitting loses nothing |
| Base64.Encode | Program.cs:147 | `Convert.ToBase64String` writes four letters per started block of three bytes |
| Base64.DecodeEncode | Program.cs:147-152 | `Convert.FromBase64String` inverts `Convert.ToBase64String` on every byte string |
| Codec.Xor | Program.cs:146 | applying the keystream preserves the byte length |
| Codec.XorBitsTwice | Program.cs:146 | the `^` of a byte with the same key byte twice gives back the byte |
| Codec.XorTwice | Program.cs:146 | applying the keystream twice restores the buffer |
| Codec.DecryptEncrypt | Program.cs:142-156 | `Decrypt(Encrypt(p, k), k) == p` for every plaintext and non-empty key |
| Codec.EncryptedLineNotBlank | Program.cs:71 | the encryption of a non-empty plaintext is never a blank line, so a load never skips it as blank |
| Codec.DecryptOtherKey | Program.cs:142-156 | a line encrypted with one key decrypts to its plaintext under another exactly when the two keystreams agree over the plaintext's length |
| VaultFormat.LineRecordSpec | Program.cs:71-75 | a record line fails exactly when it is non-blank and not base64; it yields an entry exactly when it is non-blank and decrypts to three pipe-separated fields; that entry holds no pipe character and is what the line decrypts to |
| VaultFormat.RecordsSpec | Program.cs:69-76 | a load of the record lines fails only with a malformed line, keeps at most one entry per line, and keeps only entries free of the pipe character |
| VaultFormat.RecordsAppend | Program.cs:69-76 | lines load independently and in file order: the entries of two stretches of lines are concatenated, with no merging of services |
| VaultFormat.RecordsFail | Program.cs:69-76 | the load fails exactly when some record line is non-blank and not base64 |
| VaultFormat.MalformedLineFails | Program.cs:72 | one malformed record line fails the whole load |
| VaultFormat.Parse | Program.cs:52-77 | a missing header means "Invalid vault file"; with the header, fewer than two lines or a sentinel line that decrypts to something else means "Wrong master password"; the vault opens exactly when the header and sentinel check pass and every record line loads, and then holds the entries of lines 2 onward |
| VaultFormat.Serialize | Program.cs:128-136 | `Save` writes `2 + entries.Count` lines: the header, the sentinel line, then one line per entry in order |
| VaultFormat.SplitRecord | Program.cs:73-74 | a record of service, user and password joined by the pipe character splits back into its three fields exactly when no field holds the pipe character, and otherwise not into three parts |
| VaultFormat.SavedRecordLoads | Program.cs:71-75 | a saved record loads back as the same entry when no field holds the pipe character, and is silently skipped otherwise |
| VaultFormat.Storable | Program.cs:69-76 | the entries that survive a save and a load are never more than those saved |
| VaultFormat.StorableMembers | Program.cs:73-75 | the entries surviving a save and a load are exactly the saved entries free of the pipe character |
| VaultFormat.RecordsOfRecordLines | Program.cs:69-76 | loading the record lines `Save` writes gives back the storable entries in order |
| VaultFormat.SaveLoadRoundTrip | Program.cs:52-77 | loading what `Save` wrote, with the same key, gives back the storable entries, and gives back all entries in order when none holds the pipe character |
| VaultFormat.PasswordCheckSeesEightBytes | Program.cs:62 | a file saved with one key passes the password check under another exactly when the two keystreams agree on the eight sentinel bytes |
| VaultEngine.FindIndex | Program.cs:91 | `FindIndex` returns the first entry whose service equals the argument ignoring case, or -1 when none does |
| VaultEngine.UpsertedCount | Program.cs:91-95 | `Add` grows the list by one exactly when no entry has the service yet, and otherwise keeps its length |
| VaultEngine.UpsertedInPlace | Program.cs:91-95 | `Add` replaces the first matching entry at the same index and leaves every other index unchanged, or appends when nothing matches |
| VaultEngine.UpsertedFound | Program.cs:91-95 | after `Add`, the first entry for the service is the new entry, with the new casing of the service |
| VaultEngine.UpsertedOthers | Program.cs:91-95 | `Add` keeps every entry of another service and introduces no entry but the new one |
| VaultEngine.UpsertedDistinct | Program.cs:91-95 | `Add` never creates a second entry for a service that is stored once |
| VaultEngine.Without | Program.cs:123 | `RemoveAll` never lengthens the list |
| VaultEngine.WithoutShrinks | Program.cs:122-125 | the count drops, and "Removed." is printed, exactly when some entry has the service ignoring case |
| VaultEngine.WithoutMembers | Program.cs:123 | `RemoveAll` removes exactly the entries whose service equals the argument ignoring case |
| VaultEngine.WithoutAppend | Program.cs:123 | the entries that survive `RemoveAll` keep their relative order |
| VaultEngine.WithoutAbsent | Program.cs:123 | removing a service that is not stored leaves the list unchanged |
| VaultEngine.RemoveUndoesAdd | Program.cs:119-126 | removing a service just added to a list that lacked it gives back the original list |
| VaultEngine.Matching | Program.cs:111-116 | `Find` prints no more entries than are stored |
| VaultEngine.MatchingMembers | Program.cs:111-116 | `Find` prints exactly the entries whose lower-cased service contains the lower-cased term |
| VaultEngine.MatchingAppend | Program.cs:112-116 | `Find` prints its matches in stored order |
| VaultEngine.MatchingEmptyTerm | Program.cs:111-116 | an empty search term prints every entry |
| VaultEngine.MatchingFindsService | Program.cs:111-116 | searching for a stored service, in any case, prints its entry |
| VaultEngine.MatchingIgnoresCase | Program.cs:111 | lower-casing the term first does not change what `Find` prints |
| VaultEngine.Vault.constructor | Program.cs:36-50 | an existing file is loaded and the vault is unlocked with its entries, or locked with the reason; a missing file is created holding only the header and sentinel, and the vault starts unlocked and empty; the invariant holds |
| VaultEngine.Vault.LoadVault | Program.cs:52-77 | the header check, the sentinel check and the record loop compute `Parse` of the file: its entries on success, a lock with the reason otherwise |
| VaultEngine.Vault.CreateNewVault | Program.cs:79-86 | the new file is what `Save` writes for no entries |
| VaultEngine.Vault.EnsureUnlocked | Program.cs:138-141 | passes exactly when the vault is unlocked, and fails with "Vault is locked." otherwise |
| VaultEngine.Vault.Add | Program.cs:88-99 | on a locked vault, fails and changes nothing; otherwise the entries become the upsert of the new entry, the file is rewritten from them, and the invariant holds |
| VaultEngine.Vault.ListAll | Program.cs:101-106 | fails on a locked vault; otherwise yields each entry's service and masked user, in order, changing nothing |
| VaultEngine.Vault.Find | Program.cs:108-117 | fails on a locked vault; otherwise yields `Matching` of the entries, changing nothing |
| VaultEngine.Vault.Remove | Program.cs:119-126 | on a locked vault, fails and changes nothing; otherwise removes every case-insensitive match, rewrites the file even when nothing matched, reports "Removed." exactly when a match existed, and keeps the invariant |
| VaultEngine.Vault.Save | Program.cs:128-136 | on an unlocked vault, the file becomes the header, the sentinel line and one encrypted record line per entry, in order; on a locked vault it fails and changes nothing |
| VaultEngine.Vault.ApplyKey | Program.cs:146 | the in-place loop `data[i] ^= k[i % k.Length]` leaves the buffer equal to the keystream applied to its old contents |
| VaultEngine.Vault.Encrypt | Program.cs:142-148 | computes the encrypted line of the plaintext |
| VaultEngine.Vault.Decrypt | Program.cs:150-156 | computes the plaintext of a line, or the failure where the line is not base64 |
| VaultEngine.Vault.Mask | Program.cs:158-163 | an empty name shows as `**`; one or two characters show as that many stars; a longer name keeps its first and last character with stars between; a non-empty name keeps its length |

## Left out

- Console input and output, and `Main`'s command loop (Program.cs:166-206), are not
  modelled. The commands return what they would print as values: `Outcome`, `Removal`,
  the rows of `ListAll` and the entries of `Find`. The formatting of those lines is left
  out.
- File system calls are not modelled. `File.Exists` and `File.ReadAllLines` become the
  constructor's `file` argument, where `None` means no file. `File.WriteAllLines` becomes
  an assignment to the `disk` field. Atomic replacement and concurrent access are not
  modelled.
- UTF-8 transcoding is identity: a string is its UTF-8 bytes. `Encoding.UTF8.GetString`
  replaces invalid sequences (as a wrong key can produce), and that replacement is not
  modelled. Splitting on `|` is unaffected, because UTF-8 never uses the byte 0x7C inside
  a multi-byte character.
- Case folding for `OrdinalIgnoreCase` and `ToLower` covers ASCII letters only. The
  culture-sensitive lower-casing of other letters is not modelled.
- VaultEngine.Vault.Mask: counts bytes, not UTF-16 code units. It agrees with the
  program on ASCII user names only.
- Base64 decoding is strict about length, alphabet and padding, like .NET. It does not
  model .NET skipping whitespace inside the text. Such text never occurs in a file the
  program writes.
- VaultEngine.Vault.constructor: a `FormatException` thrown by `Convert.FromBase64String`
  while loading escapes the constructor, so no vault object exists. The model instead
  yields a locked vault whose failure is `MalformedLine`.
- An empty master password is excluded by a precondition. With it, `i % k.Length`
  divides by zero as soon as there is a byte to encrypt.
- `null` strings do not occur: the program reads every string with `?? ""`. The
  null case of `Mask` is the empty case.
- The cryptographic strength of the exclusive-or scheme is not modelled, beyond the
  exact condition under which another key passes the password check.
