# OpenPak client library: a model and its proofs

This project models the parts of the OpenPak client library that run without the network, and proves what they
promise over all inputs and all runs. `dafny verify dfyconfig.toml` checks everything.

Each component has one or more modules, named after what they do:

- **Text and presence** (`friend_structs.cpp`, `presence_state.cpp`): `Utf8`, `Json`, `JsonGrammar`, `AppField`,
  `Presence`. A strict UTF-8 scanner with repair and truncation, the conversion between a game's key-value blob and published JSON, and
  the state that declares a player's presence.
- **Push** (`push.cpp`): `Frames` splits the stream, `FlatBuffers` reads a message out of a frame.
- **Ceiling and redirects** (`network_ceiling.cpp`, `network_profile_fetch.cpp`): `Families`, `SignedCeiling`, `Profiles`,
  `Redirect`, `Digest`. Domain families, the signed ceiling and its two files, the filtered profile, which names are
  redirected, and when the player is told of a change.
- **Saves** (`zip_store.cpp`, `restore_swap.h`, `save_sync.cpp`, `api.cpp`): `Crc`, `Zip`, `ZipLayout`,
  `Unzip`, `ZipReading`, `RoundTrip`, `Restore`, `SaveSync`. The archive as it is written
  and as any archive is read, the swap that puts a save in place, and the marker that says which cloud version it came from.
- **Codecs and arithmetic** (`api.cpp`, `baas_parsing.cpp`, `session.cpp`, `avatar.cpp`): `Base64`, `Calendar`,
  `HexText`, `PlayLog`, `Decimal`.
- **Account** (`account.cpp`): `Account`, its file and its generation counter.

`Basics`, `LittleEndian`, `Words` and `Sorting` hold what several of them share.

Code that changes fields is a class whose methods are proved to take one state to the next as a function says; code that
loops over an index or an accumulator is a method with that loop. The theorems about whole runs are then lemmas about
those functions. Bytes are numbers below 256, text is a sequence of bytes where its encoding matters and of characters
where it does not, and widths and wrap-around are written out.

## What enters as a parameter

- Signatures, SHA-256, the parse of a JSON document that is not an appField, whether an address is a usable literal, and
  inflating are functions that may be anything. Only `SignedCeiling.Sane` is assumed of them: an empty file is no JSON document.
- Clocks, server answers, and whether a write, a rename, a removal or a backup succeeds are arguments of each step.
- Files between two steps may be changed by others where a lemma says so (`Account.Step.Disturb`, `Redirect.Step.Overwrite`).

## Where the code and what is said of it differ

The code is modelled as it is; each difference has a lemma with a case and, where there is one, the exact condition.

- `network_profile.h:176` promises one notice per new digest; only the last one announced is remembered
  (`Digest.OncePerDigestExactly`, `Digest.AnnouncedAgain`).
- The effective digest leaves out the exempt names and the order of overrides, and both decide redirects
  (`Digest.ExemptNamesAreNotDigested`, `Digest.OverrideOrderIsNotDigested`). When two profiles of one digest answer a
  host alike: `Digest.SameDigestSameAnswers`.
- `zip_store.h:23` says all or nothing; entries before a refused one stay written (`RoundTrip.RefusedMidway`).
  `RoundTrip.NothingIsLeftExactly` says when none does. The caller stages, so a restore is still all or nothing.
- A folder of 65536 files or more zips to an archive whose count wraps; unzipping it answers true with files missing
  (`RoundTrip.RoundTripExactly`).
- `restore_swap.h:21` says that after false the old save is still where it was; it may be at `.openpak-old`
  (`Restore.StillWhereItWasExactly`). The next restore removes a save that is only there, so two failures in a
  row can lose it (`Restore.TwoFailuresLose`). Exactly when: `Restore.OnlyPreviousExactly` for one swap,
  `Restore.LostExactly` for any number of failed restores.
- A failed removal of the staging folder is ignored, and what it leaves is restored too (`Restore.LeftoversExactly`).
- The marker's promise (`save_sync.h:29-31`) fails when a cloud copy is put in place between capture and push, when an
  upload's answer does not name its version, and when the marker of a cloud copy cannot be written
  (`SaveSync.PushAfterPullBreaks`, `SaveSync.UnreadAnswerBreaks`). Exactly when it survives: `SaveSync.PushIsHonestExactly`,
  `SaveSync.UnreadAnswerExactly`, `SaveSync.NumberlessAnswerExactly`, `SaveSync.UnreadUploadExactly`,
  `SaveSync.NumberlessUploadExactly`, `SaveSync.UnwrittenMarkerExactly`.
- An update for a title that is not running can change what is published and answer false (`Presence.ChangeIsVisible`).
- A sign-out does not outlast a restart when the file from before profiles is still there for the profile to take over
  (`Account.SignOutLastsExactly`).
- The check that the directory ends before the end record adds offset and size in 32 bits (`ZipReading.DirectoryExactly`).
- A bearer-only sign-in does not look at the active profile first (`Account.BearerSignInIsSeen`).

## Model

| member | source | states |
|---|---|---|
| `Utf8.ValidExactly` | client/openpak/friend_structs.cpp:84-94 | a byte string is accepted exactly when it is the encoding of some sequence of Unicode scalar values (section 4 of RFC 3629) |
| `Utf8.WholeIsEncoded` | client/openpak/friend_structs.cpp:47-82 | a character the scanner takes as whole is the encoding of a scalar value |
| `Utf8.EncodedIsWhole` | client/openpak/friend_structs.cpp:47-82 | every encoded scalar value, whatever follows it, is taken as one whole character |
| `Utf8.BrokenIsMaximal` | client/openpak/friend_structs.cpp:42-82 | a bad stretch is the longest prefix of some character, or one byte: the maximal subpart that is replaced once |
| `Utf8.Utf8Sequence` | client/openpak/friend_structs.cpp:47-82 | the scanner with its out-parameter finds exactly the whole or broken front the specification scans |
| `Utf8.ValidUtf8` | client/openpak/friend_structs.cpp:84-94 | the index loop answers validity of the whole string |
| `Utf8.Utf8Lossy` | client/openpak/friend_structs.cpp:96-111 | the index loop yields the repaired string |
| `Utf8.LossyRepairs` | client/openpak/friend_structs.cpp:96-111 | repair always yields valid text, leaves a string alone exactly when it is valid, and is idempotent |
| `Utf8.LossyAfterValid` | client/openpak/friend_structs.cpp:96-111 | valid text in front of anything passes through repair unchanged |
| `Utf8.CutsAreBoundaries` | client/openpak/friend_structs.cpp:367-379 | in valid text the places not in front of a continuation byte are exactly the character boundaries |
| `Utf8.FitsIsLongest` | client/openpak/friend_structs.cpp:372-379 | truncation gives the longest valid prefix within the limit, and all of the text when it fits |
| `Utf8.Utf8Fits` | client/openpak/friend_structs.cpp:372-379 | the backing loop stops at the last cut within the limit |
| `Utf8.FixedUtf8` | client/openpak/friend_structs.cpp:381-388 | the field in place becomes the truncated text and zeros, a field under two bytes only zeros |
| `Utf8.FieldRoundTrip` | client/openpak/friend_structs.cpp:381-399 | NUL-free valid text written to a field reads back as its longest whole-character prefix that leaves a NUL, all of it when it fits |
| `Json.AppendJsonString` | client/openpak/friend_structs.cpp:275-313 | appends the quoted escape of the bytes (section 7 of RFC 8259) |
| `Json.QuotedParses` | client/openpak/friend_structs.cpp:275-313 | the string grammar reads an escaped valid string back, whatever follows it |
| `Json.TopLevelStrings.Receive` | client/openpak/friend_structs.cpp:318-364 | one parser callback: the collector's new state, or a stop past depth 64 |
| `Json.CollectsTopStrings` | client/openpak/friend_structs.cpp:315-364 | over a whole parse the collector holds exactly the string members of the top object, in order and with duplicates, and stops exactly when the nesting passes 64 |
| `JsonGrammar.PieceExactly` | client/openpak/friend_structs.cpp:492-497 | the parser takes one character of a string exactly in one of its spellings: itself, a short escape, a numbered one, or a surrogate pair (section 7 of RFC 8259) |
| `JsonGrammar.DocumentExactly` | client/openpak/friend_structs.cpp:492-497 | the parser reads a text as a value exactly when the grammar of RFC 8259 spells that value so, up to the end or a NUL |
| `AppField.PairsExactly` | client/openpak/friend_structs.cpp:444-482 | a blob has these pairs exactly when it is their layout, all publishable and distinct, and nothing but the end or an empty key after them |
| `AppField.BlobToAppField` | client/openpak/friend_structs.cpp:434-482 | the cursor loop prints the blob's pairs, or the empty object when the blob does not validate |
| `AppField.AppFieldToBlob` | client/openpak/friend_structs.cpp:484-510 | the blob in place becomes the requested pairs that fit, laid out, and zeros after them; all zeros when nothing is requested |
| `AppField.WritePairs` | client/openpak/friend_structs.cpp:499-509 | with a running offset: invalid keys are skipped and the first pair that does not fit ends the writing |
| `AppField.KeptExactly` | client/openpak/friend_structs.cpp:498-509 | of the pairs with a valid key exactly the longest front that fits is written |
| `AppField.RestoredExactly` | client/openpak/friend_structs.cpp:484-510 | a text in braces that is one JSON document no deeper than 64 becomes the kept pairs of its top-level strings and zeros, every other text zeros alone |
| `AppField.PrintedIsRequested` | client/openpak/friend_structs.cpp:444-510 | what the printer writes for valid pairs is what the parser and collector hand to the writer |
| `AppField.BlobRoundTrip` | client/openpak/friend_structs.cpp:444-510 | for every blob of any length: back and forth gives the blob with everything after its pairs zeroed, or zeros when it does not validate, and publishing that again gives the same text |
| `Presence.PresenceState.Update` | client/openpak/presence_state.cpp:61-98 | the new slot, whether session, field or title changed, and a call of the listener, if there is one, exactly then |
| `Presence.PresenceState.UpdateUserPresence` | client/openpak/presence_state.cpp:108-112 | an update for the running title with the published form of the blob |
| `Presence.PresenceState.Current` | client/openpak/presence_state.cpp:114-126 | what would be published now, inactive when nothing runs |
| `Presence.PresenceState.OwnPresenceView` | client/openpak/presence_state.cpp:128-133 | the view a game reads back, its storage restored from the field |
| `Presence.DeclaredIsFold` | client/openpak/presence_state.cpp:40-98 | after any history what is declared is the fold of the profile's trailing run of updates for the title since the last clear |
| `Presence.ChangeIsVisible` | client/openpak/presence_state.cpp:61-126 | for the running title an update reports a change exactly when what is published changes; for another title, the exact condition under which it changes unreported |
| `Presence.PublishedExactly` | client/openpak/presence_state.cpp:114-133 | after any history: inactive when nothing runs, else the running title and group, PLAYING exactly when its last word on the session opened it and ONLINE otherwise, with the last field it gave; the view says the same as a number |
| `Presence.ChangesExactly` | client/openpak/presence_state.cpp:61-98 | a commit counts as a change exactly when session or field differ after it, and only then moves the time |
| `Presence.ChangeCanBeSilent` | client/openpak/presence_state.cpp:61-98 | that case exists: an update for another title hides an open session and answers false |
| `Presence.ViewIsCanonical` | client/openpak/presence_state.cpp:108-133 | after an update with a blob the view holds the canonical form of that blob |
| `Frames.FrameReader.Feed` | client/openpak/push.cpp:382-392 | appends, and answers false exactly when the header at the front is zero or oversize |
| `Frames.FrameReader.Next` | client/openpak/push.cpp:394-406 | takes the first whole frame of the greedy parse, or leaves the buffer alone |
| `Frames.FrameReader.Receive` | client/openpak/push.cpp:334-360 | feed then drain delivers the frames of buffer and chunk and keeps the unread rest, or stops on a bad front |
| `Frames.FramesAppend` | client/openpak/push.cpp:382-406 | more bytes only add frames: the parse of a longer stream is the parse so far and that of the rest |
| `Frames.RunInvariant` | client/openpak/push.cpp:334-406 | over any run of chunks the frames delivered are those of the whole stream so far, also when it ended on a bad header |
| `Frames.CutsDoNotMatter` | client/openpak/push.h:45-56 | two ways of cutting one stream deliver the same frames |
| `Frames.LittleWaits` | client/openpak/push.cpp:382-406 | what waits after draining is shorter than 4 + MaxFrame unless its header is bad |
| `Frames.WrittenArrives` | client/openpak/push.h:45-56 | frames of an allowed size written one after another all arrive, whatever follows |
| `FlatBuffers.MessageIsInside` | client/openpak/push.cpp:408-429 | any name and body returned is a contiguous slice of the frame (push.h:39) |
| `FlatBuffers.FieldExactly` | client/openpak/push.cpp:62-83 | a field is found exactly where a vtable at the signed 32-bit distance has a non-zero entry for it, all of it inside the frame |
| `FlatBuffers.ReadExactly` | client/openpak/push.cpp:408-429 | a frame is read as a message exactly when it is a PutRecord whose first entry is of kind 1 and leads to a message table with a body, every step inside the frame; the name is empty exactly when the table has none or an empty one |
| `FlatBuffers.LaidOutIsRead` | client/openpak/push.cpp:413-429 | on every frame laid out with in-range root, vtable, vector and string offsets the name and body written are read |
| `FlatBuffers.MessageRoundTrip` | client/openpak/push.cpp:413-429 | one such writer exists: for every name and body, reading what it wrote returns them |
| `Crc.StepXor` | client/openpak/zip_store.cpp:124-126 | the one-bit step is linear over exclusive or |
| `Crc.LookupIsEightShifts` | client/openpak/zip_store.cpp:131-135 | one table lookup does eight one-bit steps |
| `Crc.BuildTable` | client/openpak/zip_store.cpp:121-130 | every table entry is its index after eight steps |
| `Crc.Crc32` | client/openpak/zip_store.cpp:120-137 | the table-driven loop computes the bit-at-a-time reflected CRC-32 of every input (section 4.4.7 of PKWARE APPNOTE) |
| `Base64.Base64StdEncode` | client/openpak/api.cpp:82-107 | the encoder loop (session.cpp:180-205 is the same loop) writes the padded standard encoding |
| `Base64.Base64StdDecode` | client/openpak/api.cpp:109-145 | the unsigned accumulator over both alphabets yields the whole bytes of the letters' digits |
| `Base64.SessionDecode` | client/openpak/session.cpp:207-235 | the signed accumulator over the standard alphabet yields the same |
| `Base64.AvatarDecode` | client/openpak/avatar.cpp:16-46 | the table lookup with its bit count kept eight lower yields the bytes of the text before the first equals sign |
| `Base64.DecodeBase64` | client/openpak/network_ceiling.cpp:72-116 | the quad-at-a-time reader accepts exactly the well-formed non-empty texts and returns their bytes |
| `Base64.Base64Strict` | client/openpak/baas_parsing.cpp:163-208 | the bit-accumulating strict reader accepts exactly the texts well formed once whitespace is dropped, with the same bytes |
| `Base64.StrictRoundTrip` | client/openpak/api.cpp:82-107 | every encoding is well formed, free of whitespace, and strictly read back |
| `Base64.LenientAgree` | client/openpak/api.cpp:109-145 | on every well-formed text the lenient decoders return what the strict ones return |
| `Base64.AllDecodersReturn` | client/openpak/api.cpp:82-145 | all five decoders return the data from its encoding |
| `Calendar.DaysAreCounted` | client/openpak/api.cpp:867-876 | for every Gregorian date the arithmetic is the true count of days from 1970-01-01 |
| `Calendar.EachDayCountsOnce` | client/openpak/api.cpp:867-876 | the count is 0 on 1970-01-01 and one more on each next date, over every month end and leap rule |
| `Calendar.EachSecondCountsOnce` | client/openpak/api.cpp:859-877 | the first second of 1970 is 0, the second after any other is one more, and a text that is short or does not scan is 0 |
| `Calendar.TimestampsAscend` | client/openpak/api.cpp:859-877 | a later valid moment has a larger timestamp |
| `HexText.TryHexText` | client/openpak/friend_structs.cpp:116-148 | the copy that shifts every digit in reads one to sixteen digits after spaces, sign and prefix, or refuses |
| `HexText.TryHexTextCounted` | client/openpak/baas_parsing.cpp:257-290 | the copy that counts first reads exactly the same |
| `HexText.NibbleExactly` | client/openpak/friend_structs.cpp:116-148 | the digits are the sixteen in order, small or capital, and nothing else |
| `HexText.DecoratedReads` | client/openpak/friend_structs.cpp:116-148 | spaces, a plus sign and 0x may stand in front and anything behind; one to sixteen digits are the number they spell, none or more are refused |
| `HexText.PrintedIdReads` | client/openpak/baas_parsing.cpp:257-290 | every 64-bit id printed with sixteen digits reads back, whatever follows but another hex digit |
| `HexText.CatalogIdRoundTrip` | client/openpak/friend_structs.cpp:417-422 | a catalog id printed from its two halves gives both back |
| `HexText.TryCatalogId` | client/openpak/friend_structs.cpp:417-422 | thirty-two characters, both halves readable, or nothing |
| `PlayLog.ParsePlayLog` | client/openpak/baas_parsing.cpp:368-423 | entries updated in place: one per title among the rows read, each merged over all of them, at most twenty, and every row is read unless twenty titles were found |
| `PlayLog.MergedBounds` | client/openpak/baas_parsing.cpp:397-420 | the merged numbers bound those of every row of the title; index and group are the first row's |
| `PlayLog.MergedIsReached` | client/openpak/baas_parsing.cpp:416-419 | each of the four merged numbers is that of some row of the title |
| `Account.OpenPakAccount.EnsureLoaded` | client/openpak/account.cpp:58-113 | another active profile drops what is loaded, moves the counter, migrates the shared file and parses the profile's |
| `Account.OpenPakAccount.Save` | client/openpak/account.cpp:186-197 | the account in memory and in the loaded profile's file, the counter one higher |
| `Account.OpenPakAccount.SaveBearerOnly` | client/openpak/account.cpp:168-178 | the same without looking at the active profile |
| `Account.OpenPakAccount.Clear` | client/openpak/account.cpp:199-209 | signed out in memory, the file gone, the counter one higher |
| `Account.OpenPakAccount.Forget` | client/openpak/account.cpp:242-252 | the profile's file gone; when it is the loaded one, unloaded with the counter one higher |
| `Account.LookExactly` | client/openpak/account.cpp:58-113 | a look at the profile last loaded changes nothing; at another the account is what its file says, else the file from before profiles, which it takes over, else nobody's |
| `Account.SignInLasts` | client/openpak/account.cpp:186-197 | a sign-in is what every look sees, and after a restart too exactly when its fields are clean; other profiles' files stay |
| `Account.SignOutLastsExactly` | client/openpak/account.cpp:199-209 | a sign-out is what every look sees; after a restart too, exactly when no file from before profiles is left to take over or it names nobody; and when one is left |
| `Account.ForgetExactly` | client/openpak/account.cpp:242-252 | exactly that profile's file goes, loaded or not; the account in memory goes only with its own profile |
| `Account.LineReads` | client/openpak/account.cpp:90-113 | a line assigns its key with any blanks around key and value; without an equals sign or a key it changes nothing |
| `Account.FileRoundTrip` | client/openpak/account.cpp:67-122 | a saved account comes back from its file exactly when every text field is one line with nothing to trim |
| `Account.SameGenerationSameAccount` | client/openpak/account.cpp:180-184 | over any run of sign-ins, clears, forgets, switches and disturbed files, two looks at one generation see the same account |
| `Account.BearerSignInIsSeen` | client/openpak/account.cpp:168-178 | what the next look sees after a bearer-only sign-in, in every case |
| `Account.BearerSignInCanBeLost` | client/openpak/account.cpp:168-178 | after a profile switch not yet looked at, the sign-in lands in the other profile's file and is not seen |
| `Families.FamilyWellFormed` | client/openpak/network_ceiling.cpp:255-280 | the scanning loop accepts exactly a dot followed by at least two well-formed labels |
| `Families.LabelExactly` | client/openpak/network_ceiling.cpp:255-280 | a label is one to 63 letters, digits and hyphens, with a letter or digit at each end (section 2.3.1 of RFC 1035, lower case) |
| `Families.NameInFamilies` | client/openpak/network_ceiling.cpp:485-498 | the loop answers whether some family contains the lower-cased name |
| `Families.InFamilyExactly` | client/openpak/network_ceiling.cpp:485-498 | for a well-formed family the comparison is exactly: the family's labels are the last labels of the name |
| `Families.LowerExactly` | client/openpak/network_ceiling.cpp:485-498 | two texts are the same in lower case exactly when they are letter by letter |
| `Families.MatchesExactly` | client/openpak/network_profile_fetch.cpp:77-87 | by labels: a pattern with a dot covers exactly the names whose last labels are its own with more in front, any other but the empty one exactly the name it spells, in either case |
| `Families.MatchesStayInside` | client/openpak/network_profile_fetch.cpp:77-87 | a pattern inside a family matches no name outside it |
| `SignedCeiling.VerifyCeiling` | client/openpak/network_ceiling.cpp:282-372 | a ceiling exactly when the envelope holds bytes, and under the name of a pinned key 64 bytes that verify as its Ed25519 signature over them, and those bytes say that ceiling; else nothing |
| `SignedCeiling.VerifiedExactly` | client/openpak/network_ceiling.cpp:282-372 | the same of the specification, and so every verified ceiling is vouched for: some pinned key has signed bytes that say it |
| `SignedCeiling.CeilingIsSaid` | client/openpak/network_ceiling.cpp:331-372 | a payload is read as a ceiling exactly when type, version and platforms say it: a positive version, every platform a list of well-formed families, none left out |
| `SignedCeiling.EnvelopedIsAccepted` | client/openpak/network_ceiling.cpp:282-372 | an envelope put together from a payload and one signature is accepted exactly when a pinned key of that name verifies the signature |
| `SignedCeiling.VerifiedIsWellFormed` | client/openpak/network_ceiling.cpp:282-372 | every family of a verified ceiling is well formed and its version is positive |
| `SignedCeiling.CompiledIsWellFormed` | client/openpak/network_ceiling.cpp:240-253 | so is every compiled-in family |
| `SignedCeiling.CeilingStore.LoadCeiling` | client/openpak/network_ceiling.cpp:374-463 | decides, writes cache and version each free to fail, and puts the decision in use |
| `SignedCeiling.CeilingStore.CurrentCeiling` | client/openpak/network_ceiling.cpp:469-483 | the one in use, or the verified cache or compiled fallback, which is then in use |
| `SignedCeiling.LoadKeepsFloor` | client/openpak/network_ceiling.cpp:374-463 | whichever writes happen, the larger of stored and cached verified version does not fall, and what is put in use is compiled-in, or signed by a pinned key and no older than it |
| `SignedCeiling.FetchedIsUsedExactly` | client/openpak/network_ceiling.cpp:374-419 | a verified fetched ceiling is put in use exactly when it is no older than the floor |
| `SignedCeiling.DecidedExactly` | client/openpak/network_ceiling.cpp:374-419 | what is put in use in every case: what was fetched if it verifies and is no older than the floor, else the cache if it verifies and is no older than the version on file, else what was compiled in |
| `SignedCeiling.LoadRaisesFloor` | client/openpak/network_ceiling.cpp:420-463 | the floor rises to the version put in use as soon as one of the two writes happens, and the version file takes that version whenever it is written |
| `SignedCeiling.AcceptedIsRemembered` | client/openpak/network_ceiling.cpp:374-463 | once cached it is what a later start without the network uses, whether or not its version could be written |
| `SignedCeiling.RunsKeepFloor` | client/openpak/network_ceiling.cpp:374-483 | the same over any run of loads, looks and restarts, between any two points of it |
| `Profiles.ServiceHostReads` | client/openpak/network_ceiling.cpp:502-519 | a URL put together from scheme, host, optional port and tail gives its host back in lower case |
| `Profiles.BracketedHostReads` | client/openpak/network_ceiling.cpp:504-519 | a bracketed host is what the brackets hold, whatever port or tail follows |
| `Profiles.NoHostReads` | client/openpak/network_ceiling.cpp:504-516 | an empty scheme, an empty authority, credentials in it or a bracket left open give no host |
| `Profiles.NotAUrlReads` | client/openpak/network_ceiling.cpp:504-508 | nor does a text without a scheme mark |
| `Profiles.MutableProfile.FilterToCeiling` | client/openpak/network_ceiling.cpp:527-550 | in place: what each list keeps, and the names dropped, list by list and in order |
| `Profiles.KeptOrOutside` | client/openpak/network_ceiling.cpp:531-541 | each item is kept or its name, outside every family, is reported |
| `Profiles.Kept` | client/openpak/network_ceiling.cpp:531-547 | an item is kept exactly when its name is inside the families |
| `Profiles.FilterConfines` | client/openpak/network_ceiling.cpp:527-550 | after filtering through well-formed families every host answered, and every service host, has some family's labels as its last labels |
| `Profiles.FilteredExactly` | client/openpak/network_ceiling.cpp:527-550 | each of the four lists keeps exactly what is inside the families, nothing else of the profile changes, and filtering again changes nothing |
| `Profiles.ErasedOneByOne` | client/openpak/network_ceiling.cpp:531-541 | what is kept and what is reported of two lists put together is that of each, in order |
| `Profiles.AnswersExactly` | client/openpak/network_profile_fetch.cpp:433-467 | a name is redirected exactly when no exempt pattern covers it and an override, an exact name or a suffix does, by labels; to the first covering override's address, else the profile's own, else the caller's |
| `Redirect.NetworkProfile.Validate` | client/openpak/network_profile_fetch.cpp:169-189 | right platform, usable server address, usable override addresses |
| `Redirect.NetworkProfile.BuiltInProfile` | client/openpak/network_profile_fetch.cpp:200-218 | the built-in suffixes that the ceiling in use admits |
| `Redirect.NetworkProfile.LoadStored` | client/openpak/network_profile_fetch.cpp:220-242 | the stored body when it parses and validates, filtered |
| `Redirect.NetworkProfile.Finish` | client/openpak/network_profile_fetch.cpp:317-370 | fetched beats stored beats built-in, each filtered; the accepted profile is stored unfiltered |
| `Redirect.FinishedExactly` | client/openpak/network_profile_fetch.cpp:317-370 | a good reply is used and stored unfiltered, else the stored profile if it is good, else the built-in one, and the stored file changes with a good reply only; good means platform, addresses and CA |
| `Redirect.BuiltInIsWhole` | client/openpak/network_profile_fetch.cpp:200-218 | the families compiled in admit every name built in, on every platform |
| `Redirect.BuiltInAnswers` | client/openpak/network_profile_fetch.cpp:200-218 | with nothing fetched or stored, exactly the names under the platform's built-in suffixes are redirected, to the caller's own address |
| `Redirect.NetworkProfile.Apply` | client/openpak/network_profile_fetch.cpp:420-426 | the result in use and the digest of its effective text recorded |
| `Redirect.NetworkProfile.FetchWithCeiling` | client/openpak/network_profile_fetch.cpp:386-408 | ceiling first, then the profile under it, then applied: the whole new state |
| `Redirect.FetchExactly` | client/openpak/network_profile_fetch.cpp:386-408 | what a fetch leaves, in every case: the ceiling and its two files, the profile chosen under it, and the stored file |
| `Redirect.NetworkProfile.RedirectFor` | client/openpak/network_profile_fetch.cpp:433-467 | nothing before a profile is applied; then an address exactly as `Profiles.AnswersExactly` has it |
| `Redirect.RunsStayInside` | client/openpak/network_profile_fetch.cpp:317-467 | after any run, whatever was sent or stored, only names under the families of a sound ceiling no older than the floor of the start are redirected |
| `Redirect.RunsReach` | client/openpak/network_profile_fetch.cpp:169-189 | after any run, whatever was sent or stored, every address answered is a usable one or the caller's own |
| `Redirect.LaterCeilingDecides` | client/openpak/network_profile_fetch.cpp:362-367 | the stored copy is what the server sent: offline under another ceiling it is filtered anew |
| `Digest.EffectiveText` | client/openpak/network_ceiling.cpp:552-577 | collect, sort, unique and join yield the canonical text that is hashed |
| `Digest.SameTextExactly` | client/openpak/network_ceiling.cpp:552-577 | with no newline in an entry, two texts are equal exactly when the sets of entries are |
| `Digest.SameTextSameRedirects` | client/openpak/network_ceiling.cpp:552-577 | with no equals sign in override names and service ids, exactly when families, names, overrides, address and services are the same |
| `Digest.SameDigestSameAnswers` | client/openpak/network_ceiling.cpp:552-577 | two profiles of one text answer a host alike exactly when neither would redirect it, both exempt it, or they agree on exempting it and on the first override that matches it |
| `Digest.OneAddressSameAnswers` | client/openpak/network_ceiling.cpp:552-577 | when no two overrides give the host different addresses: exactly when neither would redirect it or they agree on exempting it |
| `Digest.ExemptNamesAreNotDigested` | client/openpak/network_ceiling.cpp:552-577 | exempt names are not hashed: two profiles with one text that answer a host differently |
| `Digest.OverrideOrderIsNotDigested` | client/openpak/network_ceiling.cpp:552-577 | nor is the order of overrides: two profiles with one text in which two spellings of a name swap addresses |
| `Digest.Watch.ShouldAnnounce` | client/openpak/network_ceiling.cpp:683-690 | announces a digest that is neither in use nor the last announced, and remembers it |
| `Digest.ToldIsDeduplicated` | client/openpak/network_ceiling.cpp:683-696 | over any run what is announced is what was seen while another was in use, one for each stretch of equal digests |
| `Digest.OncePerDigestExactly` | client/openpak/network_profile.h:173-180 | each new digest is announced once exactly when no digest comes back after another was seen |
| `Digest.AnnouncedAgain` | client/openpak/network_ceiling.cpp:683-690 | a digest that comes back is announced again |
| `Sorting.CanonicalExactly` | client/openpak/network_ceiling.cpp:569-570 | sorting and removing repeats gives the same list exactly when the elements are the same |
| `Zip.ZipDirectory` | client/openpak/zip_store.cpp:167-245 | local headers, names and data, the central directory and the end record of the readable files in sorted order |
| `ZipLayout.ArchiveIsLaidOut` | client/openpak/zip_store.cpp:167-245 | over the bytes of any archive written, every field of every record at its offset (sections 4.3.7, 4.3.12 and 4.3.16 of PKWARE APPNOTE): in both headers of each entry the bit-at-a-time CRC-32 and the size of its contents, in the directory the offset of each header, in the end record both counts |
| `Unzip.FindEnd` | client/openpak/zip_store.cpp:252-273 | the backward scan finds the last end record whose comment lies inside |
| `Unzip.SafePathStaysBelow` | client/openpak/zip_store.cpp:74-91 | an accepted name leads down by plain components only |
| `Unzip.Directory.WriteFile` | client/openpak/zip_store.cpp:342-350 | the file in place of what its path held, or a refusal when a folder is there or a file on the way |
| `Unzip.Directory.UnzipToDirectory` | client/openpak/zip_store.cpp:247-352 | end record, directory and each entry in turn, with the files and folders left on success and on refusal |
| `ZipReading.DirectoryExactly` | client/openpak/zip_store.cpp:252-283 | of any bytes, the directory taken is the one named by the last end record whose comment lies inside, if its offset and size, added in 32 bits, end before that record |
| `ZipReading.ListedExactly` | client/openpak/zip_store.cpp:284-306 | an entry is read exactly when a directory header stands there with its name, extra field and comment inside the archive |
| `ZipReading.SafePathExactly` | client/openpak/zip_store.cpp:74-91 | a name is refused exactly when it is absolute or has a climbing component, and otherwise lands at its components without the empty ones and single dots |
| `ZipReading.DataExactly` | client/openpak/zip_store.cpp:318-340 | an entry's contents are read exactly when its packed bytes stand behind a local header and are stored as they are or inflate to them |
| `ZipReading.WrittenExactly` | client/openpak/zip_store.cpp:342-350 | a file is written exactly when no file is above it and no folder in its place, and then nothing changes but it and the folders above it |
| `ZipReading.UnzipsExactly` | client/openpak/zip_store.cpp:247-352 | of any bytes, unzipping succeeds with a result exactly when the last end record names a directory and each entry there, one after another, is listed, accepted and leads from the folder as it was to that result |
| `Unzip.ArchiveIsReplayed` | client/openpak/zip_store.cpp:167-352 | unzipping an archive of any entries within the field widths writes exactly its first entries modulo 65536, in order |
| `RoundTrip.RoundTripExactly` | client/openpak/zip_store.cpp:167-352 | zipping a folder and unzipping into an empty one always succeeds, and gives exactly the readable files if and only if there are fewer than 65536 |
| `RoundTrip.ListingOrderIsForgotten` | client/openpak/zip_store.cpp:183-190 | in whatever order a folder is listed, the archive is the same |
| `RoundTrip.NothingIsLeftExactly` | client/openpak/zip_store.cpp:247-352 | of any bytes, unzipped into an empty folder, no file is left exactly when all entries accepted before the first refused one are folders |
| `RoundTrip.RefusalLeavesExactly` | client/openpak/zip_store.cpp:284-350 | an archive of known entries whose entry k is the first refused: false, the files of the entries before it stay, and none is left exactly when those are folders |
| `RoundTrip.RefusedMidway` | client/openpak/zip_store.cpp:284-350 | a file and then a refused entry: the file stays |
| `Restore.FileSystem.SwapIntoPlace` | client/openpak/restore_swap.h:23-48 | the answer, the final state and every state passed, for any outcome of each rename and removal |
| `Restore.FileSystem.UnzipToDirectoryStore` | client/openpak/save_sync.cpp:291-300 | the same for staging, unzipping and swapping |
| `Restore.SwapSucceedsExactly` | client/openpak/restore_swap.h:23-48 | the swap answers true exactly when there is a staged copy, the move in works and the save in place, if any, can be set aside; then the staged copy is in place, whatever was there |
| `Restore.FailedSwapLeaves` | client/openpak/restore_swap.h:23-48 | where everything is after false: a save not set aside untouched, one set aside back in its place or at .openpak-old, of the staged copy only what its removal could not take |
| `Restore.RestoreSucceedsExactly` | client/openpak/save_sync.cpp:291-300 | a restore answers true exactly when the archive is unzipped in full and the swap can go through; a refused archive touches nothing but the staging folder |
| `Restore.RestoreIsStepwise` | client/openpak/save_sync.cpp:291-300 | the states passed are all of them: each is one removal, one rename or one write to the staging folder away from the one before |
| `Restore.RestoreKeeps` | client/openpak/save_sync.cpp:291-300 | with a save in place on entry, at every point it is whole there or at .openpak-old, or the new copy is in place; true means the new copy is in place, false that the old save survives |
| `Restore.StillWhereItWasExactly` | client/openpak/restore_swap.h:21-22 | when the swap answers false, the old save is where it was exactly when it was never set aside or could be put back |
| `Restore.OnlyPreviousExactly` | client/openpak/restore_swap.h:23-48 | a save only at .openpak-old on entry is whole after the swap exactly when it was itself what was staged and moved in, or the first removal left it whole and, after a move in, so did the last |
| `Restore.LostExactly` | client/openpak/restore_swap.h:23-48 | over any number of restores that all answer false, begun with the save in place: it is whole at the end exactly when each one found it in place, had its archive refused, or could not remove .openpak-old |
| `Restore.TwoFailuresLose` | client/openpak/restore_swap.h:23-48 | two in a row lose it: the first cannot put it back, the second removes it |
| `Restore.LeftoversExactly` | client/openpak/save_sync.cpp:292-295 | files that a failed removal left in staging survive into the restored save, exactly those the archive does not name |
| `Restore.UploadedSaveIsRestored` | client/openpak/save_sync.cpp:291-310 | an uploaded save restored on another machine is in place, exactly its readable files, if and only if the move in works and a save already there can be set aside; else that save is kept |
| `SaveSync.SaveFolder.ReadMarker` | client/openpak/save_sync.cpp:392-399 | the marker's text without trailing newlines, returns and spaces |
| `SaveSync.MarkerReads` | client/openpak/save_sync.cpp:392-399 | a version reads back from the marker whatever newlines, returns and spaces stand behind it |
| `SaveSync.SaveFolder.PullSave` | client/openpak/api.cpp:593-615 | a save that is sent leaves its version in the map |
| `SaveSync.SaveFolder.PushSave` | client/openpak/api.cpp:617-651 | the map's version goes as base; the answer's number replaces it, or nothing when it does not parse |
| `SaveSync.SaveFolder.ApplyCloud` | client/openpak/save_sync.cpp:409-435 | backup, unzip and marker, or nothing |
| `SaveSync.SaveFolder.PullBeforeLaunch` | client/openpak/save_sync.cpp:439-472 | in step, both exist, not wanted, or taken |
| `SaveSync.SaveFolder.PushCaptured` | client/openpak/save_sync.cpp:483-509 | a marker overrides the map's version as base, and moves only when the upload was stored |
| `SaveSync.SaveFolder.Download` | client/openpak/save_sync.cpp:545-564 | the newest cloud copy over the local one |
| `SaveSync.SaveFolder.UploadNow` | client/openpak/save_sync.cpp:566-590 | the local copy based on the newest cloud version, whatever the marker says |
| `SaveSync.RunsStayHonest` | client/openpak/save_sync.cpp:386-509 | after any ordinary run a non-empty marker names a version the cloud has, and at some step since the local save last was replaced it had exactly those files |
| `SaveSync.OnlyPlaySince` | client/openpak/save_sync.cpp:386-509 | in any run, no step since the last replacement but play changes the local save |
| `SaveSync.PullTakesOrLeaves` | client/openpak/save_sync.cpp:439-472 | before a launch the cloud copy is taken whole with its marker, or save and marker stay; a save without a marker or in step is never replaced |
| `SaveSync.TakenExactly` | client/openpak/save_sync.cpp:439-472 | before a launch the cloud copy is taken exactly when a save was sent, the host still waits, and there is no local save, or one whose marker names another version and that can be backed up, and the archive is accepted; with the whole state after |
| `SaveSync.BothExistExactly` | client/openpak/save_sync.cpp:460-464 | both exist exactly when a local save without a marker meets a sent save that has a version; unless taken, only the map changes |
| `SaveSync.DownloadedExactly` | client/openpak/save_sync.cpp:545-564 | a download succeeds exactly when a save was sent, a local one can be backed up and the archive is accepted, marker or not |
| `SaveSync.PushedExactly` | client/openpak/save_sync.cpp:483-509 | the base is the marker's version or else the map's; stored, the cloud, the map and the marker take the save and its number; refused, only the base is remembered |
| `SaveSync.UploadedExactly` | client/openpak/save_sync.cpp:566-590 | the same for an upload, which is based on the newest version and needs a local save |
| `SaveSync.UploadKeepsLocal` | client/openpak/save_sync.cpp:566-590 | the base is the newest cloud version whatever the marker says, the local save stays, and the marker names what was stored |
| `SaveSync.PushNamesItsBase` | client/openpak/save_sync.cpp:490-495 | a push with a marker names that version as its base |
| `SaveSync.PushIsHonestExactly` | client/openpak/save_sync.cpp:483-509 | after any run, a push whose answer names its new version keeps the promise exactly when what it sends was captured since the last replacement, or the save had the same contents at some step since |
| `SaveSync.CapturesAre` | client/openpak/save_sync.cpp:474-481 | over any run each pending save is what the local save was at the step it was captured |
| `SaveSync.UnreadAnswerExactly` | client/openpak/api.cpp:643-650 | a push whose answer does not parse keeps it exactly when there is a marker that the new version does not write over with something the save never had, or else the map's version is none or one the save had |
| `SaveSync.NumberlessAnswerExactly` | client/openpak/api.cpp:643-650 | a push whose answer parses without a number keeps it exactly when version 0, as it then stands, is one the save had |
| `SaveSync.UnreadUploadExactly` | client/openpak/save_sync.cpp:566-590 | an upload whose answer does not parse keeps it exactly when its base is none, the new version itself, or one the save had |
| `SaveSync.NumberlessUploadExactly` | client/openpak/save_sync.cpp:566-590 | an upload whose answer parses without a number: exactly when it was stored as version 0 or the save had version 0 |
| `SaveSync.UnwrittenMarkerExactly` | client/openpak/save_sync.cpp:409-435 | a replacement whose marker could not be written keeps it exactly when there was no marker or the marker's version holds what is now in place |
| `SaveSync.PushAfterPullBreaks` | client/openpak/save_sync.cpp:483-509 | a run that keeps the promise until a push of what was captured before the cloud copy came in |
| `SaveSync.UnreadAnswerBreaks` | client/openpak/api.cpp:643-650 | a run that keeps it until an unread answer after both a local and a cloud save were found: the marker then names the cloud's |
| `Decimal.PrintedReads` | client/openpak/network_ceiling.cpp:189-199 | a printed version number is read back |
| `Decimal.NumberReads` | client/openpak/network_ceiling.cpp:189-199 | blanks, a sign, a number and anything behind it read as the signed number, or not at all when the type cannot hold it |
| `Decimal.NoNumberReads` | client/openpak/network_ceiling.cpp:189-199 | without a digit after blanks and sign there is no number |

## Left out

- HTTP, TLS, sockets, threads, timers and the login chain: plumbing over libraries that are not part of this model.
- Locks: each operation is one step. `LoadCeiling` holds no lock around its read, decision and writes, so two loads at
  once are not covered; neither is a re-check of the ceiling in the middle of a profile fetch.
- The JSON library apart from the appField grammar; in that grammar a number too large for a double, which the library
  refuses, is accepted (its value is ignored either way).
- libarchive and PowerShell archives, symbolic links, a directory listing that fails midway, and a file write that fails
  after it began: an archive entry's file is written whole or not at all.
- `Compare` and its file times, `Pull`, `CaptureForPush` and `UploadCaptured`: the older or read-only parts of save sync.
- Save sync without an account or without a save folder: nothing happens then, and no step is modelled for it.
- Archive names that hold a NUL, which the system would cut short.
- The BAAS caches, struct layouts, error tables, filters, invitations, catalogues, crash reports and everything in Qt.
- The profile's ports, CA digest, times and ETag: they are carried along and decide nothing modelled here.
- Log lines and the error texts of results.
- Unzip.SafePathStaysBelow: the code's second check, that the joined path starts with the folder's own, is not modelled,
  because paths here are lists of components under the folder and cannot fail it.
- Unzip.Directory.UnzipToDirectory: an entry whose name is a folder only (`.` or `./`) is modelled as the folder itself.
- Zip.ZipDirectory: called on a folder that exists; for anything else the code returns no bytes at all.
- Frames.FrameReader.Receive: what the receiver does with a frame, and its early stop on a reset frame or another user,
  is not modelled.
- PlayLog.ParsePlayLog: rows come parsed; after twenty titles the code reads no more rows, so a later row of a known title
  is not merged, and the contract says so through `read`.
- Calendar.TimestampsAscend: the six fields come as read by the scanner, and the result is stated for valid dates and times.
- SignedCeiling.LoadKeepsFloor: assumes that an empty file is no JSON document; a stop between the two writes is the case where
  the second one fails.
- SaveSync.RunsStayHonest: one title, whose save folder is not removed by hand; a swap that fails leaves the old save.
- Restore.LeftoversExactly: about files; an empty folder left in staging also survives.
- Unzip.Directory.WriteFile: a write that fails after the file was opened, which answers false and leaves a part, is not modelled.
- Redirect.NetworkProfile.Finish: the stored ETag, sent as a condition of the next request, and the pinned CA file are not modelled.
- Redirect.NetworkProfile.FetchWithCeiling: the condition sent with the request and the start of the watch are not modelled.
- Redirect.LaterCeilingDecides: assumes that the stored body parses back to what was accepted, because the JSON document is
  a parameter.
- SaveSync.SaveFolder.ApplyCloud: a refused unzip leaves the local save, although the swap can leave it at `.openpak-old`;
  `Restore` has that case.
