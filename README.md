# OTP-Server core in Dafny

A model of the stateful core of the OTP-Server back end (`server.js`):

- the **OTP ticket store** (`otpStore`), a map from the lower-cased email to
  `{otp, timestamp}`. The register-OTP handler issues a six-digit code and
  overwrites the ticket for that email. The verify handler answers
  *missing data*, *not found*, *expired*, *verified* or *invalid*. Expired
  and verified tickets are deleted. A wrong code keeps the ticket. A
  periodic sweep deletes every ticket older than five minutes;
- the **folder-based record store** under `data/RegisterData`. The folder
  name is derived from the email (`@` and `.` become `_`). The lookup
  `findUserFolderByEmail` scans the folders in listing order and compares
  the stored `userEmail` case-insensitively. The register handler writes
  `userdata.json` and, from `pngBase64`, a `profile.png` into that folder.

Files:

- `wrappers.dfy`: `Option`.
- `text.dfy`: ASCII `toLowerCase`, and the decimal `toString` of a number
  together with its parse.
- `otp.dfy`: tickets, `generateOTP`, pure functions that give each
  handler's answer and next store, lemmas about them, and the class
  `OtpStore` whose methods mutate the map and are proved against those
  functions.
- `records.dfy`: JSON values, directory entries, the folder-name rewrite,
  how `path.join` places that name (in a listed folder, below one, or in
  the base directory itself), the scan, and the class `RegisterData`. Its
  `Register` method performs the handler's steps (make the folder, decode
  and write the image, write the record) and is proved against
  `AfterRegister`.

Clock and randomness are parameters. `now` is `Date.now()` in
milliseconds. `draw` in [0, 900000) stands for
`Math.floor(Math.random() * 900000)`. A missing or empty request field
(`!email`, `!otp`) is the empty string. The outcome of sending the mail is
the parameter `mailSent`. The ticket is stored before the mail goes out, so
a failed send still leaves a live ticket.

In server.js:

- tickets carry no purpose;
- a second registration into an existing folder overwrites its
  `userdata.json`; no suffixed copy is made;
- there is no activate, deactivate or delete logic.

Behaviours of the code stated as lemmas:

- the folder name keeps the email's letter case, while lookup ignores it,
  so `A@x.com` and `a@x.com` end up in two folders that match one identity
  (`CaseVariantsFork`);
- re-registering without a picture keeps the earlier `profile.png`
  (`StaleImageSurvives`);
- a falsy `pngBase64` such as `""` stays in `userdata.json`
  (`RegisterRoundTrip`);
- a truthy `pngBase64` that `Buffer.from` rejects (a number, `true`, a plain
  object) fails the request after the folder was created; a folder that
  the request created is left behind empty, an existing one unchanged
  (`UndecodableImageFails`);
- a `/` in the email is a path separator for `path.join`: `a/b@x.com` is
  written below the folder `a` (`SlashSendsBelowTop`), where the scan never
  looks (`UnlistedUserIsLost`), and `a@x.com/` writes where `a@x.com` does
  (`TrailingSlashSharesDestination`).

## Model

| member | source | states |
|---|---|---|
| `Text.Lower` | server.js:62 | lower-casing keeps the length and maps each character to its lower-case form |
| `Text.DecimalString` | server.js:46 | a non-empty string of digits with no leading zero unless the number is 0, as `toString` writes numbers below 10^21 |
| `Text.DecimalRoundTrip` | server.js:46 | parsing the decimal string of n gives n back |
| `Text.DecimalStringInjective` | server.js:46 | distinct numbers have distinct decimal strings |
| `Text.DecimalLength` | server.js:46 | a number in [10^k, 10^(k+1)) has exactly k+1 digits |
| `Otp.GenerateOtp` | server.js:45-47 | the code is 6 decimal digits, denotes 100000 + draw, and so lies in [100000, 999999] |
| `Otp.GenerateOtpInjective` | server.js:45-47 | different draws give different codes |
| `Otp.IsExpired` | server.js:117 | a ticket stays live up to and including 300000 ms after its timestamp, the strict `>` test also used at server.js:168 |
| `Otp.AfterIssue` | server.js:88-91 | the issued key holds the new ticket stamped now; every other key keeps its ticket; no key disappears |
| `Otp.VerifyOutcome` | server.js:110-128 | missing data iff a field is empty; not found iff no ticket; expired iff the ticket is older than 300000 ms; verified iff live and equal; invalid otherwise |
| `Otp.AfterVerify` | server.js:117-127 | verify only deletes, and deletes the key exactly when the answer is expired or verified |
| `Otp.Unexpired` | server.js:165-172 | every ticket kept by the sweep was in the store, unchanged and not stale |
| `Otp.FreshCodeVerifies` | server.js:88-91 | a just-issued code verifies under any case spelling of the email, up to and including five minutes later |
| `Otp.ReissueInvalidatesEarlierCode` | server.js:88-91 | issuing a second code for the same email means the first code never verifies |
| `Otp.MissingTicketIsNotFound` | server.js:114-115 | with no ticket for the lower-cased email the answer is not found and the store is unchanged |
| `Otp.WrongGuessKeepsTicket` | server.js:117-127 | a wrong code against a live ticket is invalid, changes nothing, and the right code still verifies afterwards |
| `Otp.ExpiredTicketIsPurged` | server.js:117-120 | a ticket older than five minutes answers expired even for the right code, is deleted, and a retry answers not found |
| `Otp.ExpiryIsStrict` | server.js:117 | at exactly 300000 ms the right code still verifies; one millisecond later it is expired |
| `Otp.VerifiedCodeIsSingleUse` | server.js:122-124 | a verified ticket is deleted, so repeating the request answers not found |
| `Otp.VerifyKeepsOtherKeys` | server.js:110-128 | verify neither adds, removes nor changes the ticket of any other email |
| `Otp.SweepKeepsExactlyLive` | server.js:165-172 | the sweep keeps exactly the tickets with now - timestamp <= 300000, with their values |
| `Otp.SweepAgreesWithVerify` | server.js:165-172 | sweeping changes no verify answer at the same instant except expired becoming not found, and commutes with verify |
| `Otp.SweepsCompose` | server.js:165-172 | a later sweep subsumes an earlier one; sweeping twice at one instant equals sweeping once |
| `Otp.SweepShrinks` | server.js:165-172 | the sweep only removes keys, so the store never grows |
| `Otp.OtpStore.constructor` | server.js:32 | the store starts empty |
| `Otp.OtpStore.SendRegisterOtp` | server.js:83-106 | an empty email changes nothing; otherwise the lower-cased key gets the new ticket stamped now, every other key is unchanged, and the mail outcome does not undo it |
| `Otp.OtpStore.VerifyOtp` | server.js:110-128 | answer and new store are those of the four checks in order: missing, expired (deleted), equal (deleted), invalid (kept) |
| `Otp.OtpStore.Sweep` | server.js:165-172 | the loop that deletes while iterating leaves exactly the unexpired tickets |
| `Records.FolderName` | server.js:49-51 | same length; each `@` or `.` becomes `_`, every other character is kept |
| `Records.FolderNameIsNormal` | server.js:49-51 | a folder name holds no `@` or `.`, and rewriting it again changes nothing |
| `Records.SeparatorsCollide` | server.js:49-51 | emails differing only in `@`, `.` or `_` at one place share a folder name |
| `Records.FolderNameSplit` | server.js:49-51 | the rewrite works character by character: it splits at any character, which becomes `_` when it is `@` or `.` and stays otherwise |
| `Records.CaseVariantsGetDistinctFolders` | server.js:49-51 | emails differing only in letter case get different folder names |
| `Records.Segments` | server.js:140 | `path.join` keeps only non-empty, slash-free segments: an empty path has none, and a non-empty slash-free name is one segment (with `SegmentsSplit`, this fixes every path's segments, so empty pieces from a leading, trailing or doubled `/` vanish) |
| `Records.SegmentsSplit` | server.js:140 | a `/` splits a path into the segments before it followed by the segments after it; with the slash-free case this fixes the segments of every path |
| `Records.DestinationOf` | server.js:139-140 | a slash-free email writes into the listed folder named by the rewrite; an email with a `/` writes into the base directory when its folder name has no segment, into the listed folder of that segment when it has one, and below the listed folder of the first segment when it has several |
| `Records.SlashSendsBelowTop` | server.js:139-140 | an email `p/q` with a slash-free `p` and a part after the `/` that names a segment writes below the listed folder named by `p`, not into a listed folder of its own |
| `Records.LeadingSlashSharesDestination` | server.js:140 | an email with a leading `/` writes where the email without it does |
| `Records.TrailingSlashSharesDestination` | server.js:140 | an email with a trailing `/` writes where the email without it does |
| `Records.Matches` | server.js:59-62 | only a parsed record with a string userEmail can match, and then iff it lower-cases to the query |
| `Records.FindUserFolderByEmail` | server.js:53-69 | no directory gives null; otherwise the first folder in listing order whose parsed string userEmail equals the query ignoring case, skipping unparsed folders; null exactly when none matches |
| `Records.WithEntry` | server.js:142 | recursive mkdir leaves the entry present, keeps the listing as it was and appends at most an empty entry |
| `Records.SplitImage` | server.js:144-148 | a truthy pngBase64 becomes the image and leaves the record; a falsy one stays; every other field is kept |
| `Records.Written` | server.js:142-153 | after the writes the named folder holds the record and the new image, or its old image when none is given; nothing is renamed or removed |
| `Records.HasEmail` | server.js:134 | the request passes the `!userData?.userEmail` test only with a userEmail present, and a string one is then non-empty |
| `Records.ImageWriteFails` | server.js:144-146 | only a non-string pngBase64 can make `Buffer.from` throw; a missing or string one never does |
| `Records.MkdirEffect` | server.js:142 | recursive mkdir keeps the listing, appends at most one empty entry, leaves the named top folder present, and changes nothing when the path is the base directory |
| `Records.RegisterOutcomeOf` | server.js:134-159 | invalid iff userEmail is missing or falsy; registered iff it is a string and any truthy pngBase64 is accepted by Buffer.from; failed otherwise |
| `Records.Stored` | server.js:142-153 | the file steps only add entries or rewrite existing ones, never rename or remove one |
| `Records.AfterRegister` | server.js:132-161 | a refused request leaves the listing unchanged; no request removes or renames an entry |
| `Records.RegisterRoundTrip` | server.js:139-153 | after registering into a listed folder, its record is exactly the submitted one when pngBase64 is missing or falsy (so a falsy value stays as it was), and the submitted one minus pngBase64 when it is truthy, in which case pngBase64 became the image |
| `Records.WrittenKeepsOthers` | server.js:142-153 | writing a folder keeps every other folder in place and unchanged, appends at most one, and keeps names unique |
| `Records.RegisteredUserIsFound` | server.js:132-161 | after a successful registration into a listed folder some folder matches the email in any case spelling, so the scan finds one |
| `Records.UnlistedUserIsLost` | server.js:139-153 | a successful registration whose destination is not a listed folder adds no entry that any query matches |
| `Records.UndecodableImageFails` | server.js:142-159 | a truthy pngBase64 that Buffer.from rejects answers failed, writes no record or image, and leaves the listed destination folder behind |
| `Records.RefusedRegistrationWritesNothing` | server.js:134-142 | a missing or falsy userEmail, or a non-string one on which the rewrite throws before mkdir, leads to no write |
| `Records.SameFolderOverwrites` | server.js:139-153 | two registrations into one listed folder overwrite each other: the folder keeps only the second record and no entry is added |
| `Records.StaleImageSurvives` | server.js:142-153 | re-registering into a folder without a picture keeps the earlier profile image |
| `Records.CaseVariantsFork` | server.js:139-142 | two slash-free emails differing only in case register into two folders that both match the same email |
| `Records.RegisterData.constructor` | server.js:24-29 | the register directory starts with the listing it already had, or empty when it was just created |
| `Records.RegisterData.AddEntry` | server.js:142 | recursive mkdir, or writing a file into the base directory, gives the listing `WithEntry` describes and the entry's position |
| `Records.RegisterData.WriteImage` | server.js:144-148 | writing profile.png changes only that folder's image |
| `Records.RegisterData.WriteJson` | server.js:150-153 | writing userdata.json changes only that folder's record |
| `Records.RegisterData.Register` | server.js:132-161 | the answer is `RegisterOutcomeOf` and the new listing `AfterRegister`; entry names stay unique |
| `Records.RegisterData.Store` | server.js:142-153 | the file steps give `Stored` at the destination and succeed iff the image can be decoded |
| `Records.RegisterData.StoreInFolder` | server.js:142-153 | mkdir, image, record into a listed folder, stopping after mkdir when Buffer.from throws |
| `Records.RegisterData.StoreBelow` | server.js:142-153 | only the listed top folder of a nested destination appears in the listing |
| `Records.RegisterData.StoreInBase` | server.js:142-153 | writing into the base directory itself adds `profile.png` and `userdata.json` as entries without a record |

## Left out

- Express routing, middleware, CORS, body parsing and HTTP status codes: transport, not state.
- Nodemailer: the send is a foreign network call, reduced to the `mailSent` parameter.
- Static file serving and `app.listen`: I/O shell.
- `Math.random` and its floating-point arithmetic: replaced by an integer draw in [0, 900000).
- `Date.now`: replaced by the `now` parameter.
- The `setInterval` scheduling: only its body is modelled, as `Sweep(now)`.
- `email` and `otp` of a non-string JSON type in the OTP requests (a numeric `otp`, which `===` never equals, or a numeric `email`, on which `toLowerCase` throws): both are strings in the model. Record fields do keep non-string values.
- Real filesystem calls: the directory listing is a sequence of folders.
- JSON parsing and serialization: a folder's `userdata.json` is already parsed, or `None`.
- Base64 decoding: the image is kept as the `pngBase64` value it comes from.
- I/O failures of the filesystem calls in the register handler: writes are assumed to succeed. The one failure modelled is `Buffer.from` rejecting a non-string `pngBase64`.
- `findUserFolderByEmail` returns `path.join(basePath, folder)`; the model returns the folder name.
- The position of a new folder in `readdirSync`'s listing: Node's libuv sorts directory entries by byte order (`strcmp`) on Linux and macOS, so a new folder is inserted in name order, while the model appends it. The "same index" part of `WrittenKeepsOthers` comes from appending, and when several folders match, `FindUserFolderByEmail` returns the first in the model's order, not necessarily the first in name order. The contents of every other entry are unchanged either way.
- The creation of the `LoginData` and `DuplicateData` directories: nothing in the code reads or writes them.
- Concurrent requests: the model is sequential.
- CaseVariantsFork: entry names are compared case-sensitively and paths follow POSIX `path.join`, as on Linux; on a case-insensitive filesystem (macOS, Windows by default) `A_x_com` and `a_x_com` are one folder and the second record overwrites the first.
- Text.DecimalString: writes plain digits for every number, where JavaScript switches to exponent form from 10^21 on; the only use is for 100000..999999.
- Every listed entry is a folder, except the files `profile.png` and `userdata.json` that an email made only of `/` writes into the base directory itself; entries created by other means are not modelled.
- Text.Lower: lower-cases ASCII letters only, where JavaScript's `toLowerCase` also maps other Unicode letters.
