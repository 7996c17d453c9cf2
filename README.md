# Google Drive ownership transfer, modelled in Dafny

The script `gdrive_owner_transfer.js` starts a transfer of ownership of one
Google Drive file to a new owner. It goes through four steps:

1. List the file's permissions.
2. Reuse the first permission whose email address is exactly the recipient's, or create a
   "writer" permission for that user.
3. Mark that permission with role "writer" and `pendingOwner: true`.
4. Send the recipient a plain-text Gmail message that links to the file.

The Gmail message has seven lines joined by CRLF:

- five header fields;
- an empty line;
- a body sentence that holds the link.

It is then encoded as UTF-8 octets and then as base64url with the padding removed.
The two encodings follow RFC 3629 and sections 4 and 5 of RFC 4648.

A failure of list, create or update is caught once, at the end of
`transferOwnership`, and skips every later step. A failure of the send is caught
inside `sendGmailNotification`, so it never reaches the caller.

Modules, in dependency order:

- `Wrappers`: `Option`, `Result`, the error value, and `byte`.
- `Utf8`: the total UTF-8 encoder `Buffer.from` applies to a string, and a strict decoder
  used as its partner. The decoder accepts only shortest forms, no surrogates and nothing
  above U+10FFFF.
- `Base64`: standard padded base64, the `+`→`-` and `/`→`_` replacements, trimming the
  trailing `=`, and the decoder that reverses all three.
- `Message`: the seven lines, the JavaScript `join`, and a reader that splits the message
  back into headers and body.
- `Notifier`: the `raw` field, the mail service as a class `Mailbox` whose `sent` list
  grows by one message per accepted send, and `SendGmailNotification`.
- `Drive`: permissions and the remote file as a class `DriveFile` whose `permissions`
  list `Create` and `Update` change in place.
- `Transfer`: the method `TransferOwnership`, which follows the script step by step.
  `Transfer.Expected` gives the same workflow as a function.
  `TransferOwnership` is proved to produce exactly what `Expected` gives. The workflow
  properties are lemmas about `Expected`.

Each remote call takes a `fails` flag. The service decides whether a call fails, so
the flag is a parameter of the model. `Transfer.Faults` bundles the four flags.
The JavaScript function returns nothing. The model's `Outcome` records which branch the
run took: the step whose error was caught, or the id that was marked, whether it
was created, and whether the mail went out. The console lines print less than
that: the updated permission and the address on success, and the error's message
on failure.

## Model

| member | source | states |
|---|---|---|
| Message.MessageContent | gdrive_owner_transfer.js:52 | The body sentence `Please accept the ownership transfer for the file: https://drive.google.com/file/d/<fileId>/view`. It has no contract of its own. LinkedFileId and ParseCompose read the id back |
| Message.HeaderLines | gdrive_owner_transfer.js:55-59 | The five header fields in order: `From: "Google Drive Transfer" <balanarenmar@gmail.com>`, `To: <to>`, `Content-Type: text/plain; charset=utf-8`, `MIME-Version: 1.0`, `Subject: Accept Google Drive Ownership Transfer`. It has no contract of its own. HeaderLinesNoCR and ToField state its properties |
| Message.EmailLines | gdrive_owner_transfer.js:54-62 | The header fields, then the empty line, then the body sentence. It has no contract of its own. ComposeLayout and SplitCompose state its properties |
| Message.ComposeMessage | gdrive_owner_transfer.js:54-64 | Computes `emailLines.join("\r\n")` over the seven lines. It has no contract of its own. Its properties are the lemmas ComposeLayout, SeparatorUnique, SplitCompose and ParseCompose |
| Message.Join | gdrive_owner_transfer.js:64 | JavaScript `join`: an empty list gives the empty string, and otherwise the result starts with the first line. JoinAppend, SplitJoin and JoinSeparators carry the rest |
| Message.ComposeLayout | gdrive_owner_transfer.js:51-64 | The message is the header block, then CRLF CRLF, then the body sentence; there are seven lines, line 2 is `To: <to>` and line 6 is empty |
| Message.SeparatorUnique | gdrive_owner_transfer.js:54-64 | When neither the address nor the file id contains CR, the message holds CRLF CRLF exactly once, right after the header block |
| Message.MessageSeparators | gdrive_owner_transfer.js:54-64 | CRLF CRLF occurs at a position if and only if that position ends the header block or the occurrence lies inside the body |
| Message.JoinSeparators | gdrive_owner_transfer.js:64 | In non-empty CR-free lines joined by CRLF and followed by CRLF and a tail, CRLF CRLF starts only where the join ends, when the tail starts with CRLF, or inside the tail |
| Message.JoinAppend | gdrive_owner_transfer.js:64 | Joining two non-empty line lists is joining each and putting one separator between them |
| Message.SplitJoin | gdrive_owner_transfer.js:64 | Splitting at CRLF undoes joining by CRLF for lines without CR |
| Message.SplitCompose | gdrive_owner_transfer.js:54-64 | Splitting the composed message at CRLF gives back the seven lines |
| Message.ToField | gdrive_owner_transfer.js:56 | The value of the `To` header in the header block is the recipient's address |
| Message.ParseCompose | gdrive_owner_transfer.js:51-64 | Reading the composed message gives back the recipient and the file id that the link names |
| Message.FindSeparator | gdrive_owner_transfer.js:64 | The result is the first position at or after the start where CRLF CRLF occurs, or none |
| Message.HeaderValue | gdrive_owner_transfer.js:55-59 | A value is found only if some line is `<name>: <value>`, and none is found only if no line starts with `<name>: ` |
| Message.LinkedFileId | gdrive_owner_transfer.js:52 | An id is read from a body only if the body is exactly the link sentence for that id |
| Utf8.EncodeChar | gdrive_owner_transfer.js:66 | A character becomes 1 to 4 octets; one octet exactly for ASCII; every octet after the first is a continuation octet |
| Utf8.Encode | gdrive_owner_transfer.js:66 | `Buffer.from(email)`, whose default encoding is UTF-8: each character gives 1 to 4 octets, so n characters give between n and 4n octets. Its partner is `Utf8.Decode`, through DecodeEncode and EncodeDecode |
| Utf8.EncodeDecodeScalar | gdrive_owner_transfer.js:66 | One to four octets whose first octet announces their count, and which decode to a character, are exactly that character's encoding. So no overlong form decodes (section 3 of RFC 3629) |
| Utf8.DecodeEncode | gdrive_owner_transfer.js:66 | Decoding the UTF-8 octets of any string gives the string back |
| Utf8.EncodeDecode | gdrive_owner_transfer.js:66 | The decoder is strict: any octets it accepts are exactly the encoding of the string it returns, so no second octet sequence decodes to the same text |
| Utf8.OverlongRejected | gdrive_owner_transfer.js:66 | The overlong two-octet form C0 80 of U+0000 is refused |
| Utf8.EncodeAscii | gdrive_owner_transfer.js:66 | An ASCII string encodes to one octet per character, equal to its code |
| Utf8.EncodeAppend | gdrive_owner_transfer.js:66 | Encoding a concatenation concatenates the encodings |
| Base64.Encode | gdrive_owner_transfer.js:67 | Standard base64 of n octets has 4·⌈n/3⌉ characters |
| Base64.EncodeShape | gdrive_owner_transfer.js:67 | Every character of the standard encoding is in the standard alphabet, except for as many trailing `=` as the octet count lacks to a multiple of 3 |
| Base64.DecodeEncode | gdrive_owner_transfer.js:67 | Decoding the standard encoding of any octets gives the octets back |
| Base64.TrimPadding | gdrive_owner_transfer.js:70 | The result is a prefix with no `=` at its end, and every removed character is `=` |
| Base64.ReplaceAllUndone | gdrive_owner_transfer.js:68-69 | A global `replace` of one character by another that the text does not hold is undone by the reverse replace. After a replace none of the replaced character is left |
| Base64.ToUrlAlphabet | gdrive_owner_transfer.js:68-69 | The two `replace` calls: the length is kept and no `+` or `/` is left. FromToUrlAlphabet undoes it |
| Base64.FromToUrlAlphabet | gdrive_owner_transfer.js:68-69 | On standard-alphabet text, the reverse replacements undo `+`→`-` and `/`→`_` |
| Base64.UrlEncodeNoPad | gdrive_owner_transfer.js:66-70 | The base64url text is no longer than the padded encoding, holds no `+` or `/`, and does not end in `=`. UrlEncodeShape, UrlEncodeAlphabet and UrlRoundTrip carry the rest |
| Base64.UrlEncodeShape | gdrive_owner_transfer.js:66-70 | The unpadded base64url text has ⌈4n/3⌉ characters and is a prefix of the replaced standard encoding |
| Base64.UrlEncodeAlphabet | gdrive_owner_transfer.js:66-70 | Every character of the unpadded base64url text is one of A-Z, a-z, 0-9, `-`, `_` |
| Base64.UrlRoundTrip | gdrive_owner_transfer.js:66-70 | Restoring the padding and the standard alphabet and then decoding gives the octets back |
| Notifier.RawMessage | gdrive_owner_transfer.js:66-70 | The `raw` field has ⌈4n/3⌉ characters for the n UTF-8 octets of the message, so it is no shorter than the message. RawMessageAlphabet, RawMessageOctets and RawMessageRoundTrip carry the rest |
| Notifier.RawMessageAlphabet | gdrive_owner_transfer.js:66-70 | The `raw` field uses only the base64url alphabet and holds no `+`, `/` or `=` |
| Notifier.RawMessageOctets | gdrive_owner_transfer.js:66-70 | Decoding the `raw` field gives the UTF-8 octets of the message, and those give back its text |
| Notifier.RawMessageAscii | gdrive_owner_transfer.js:66 | With an ASCII address and file id, the octets are the message's characters, one each |
| Notifier.RawMessageRoundTrip | gdrive_owner_transfer.js:48-70 | A receiver that decodes the `raw` field and parses the message recovers the recipient and the file id |
| Notifier.Mailbox.Send | gdrive_owner_transfer.js:73-78 | The send fails exactly when the service refuses it; an accepted message is appended to what was sent and a refused one leaves that unchanged |
| Notifier.SendGmailNotification | gdrive_owner_transfer.js:48-82 | Always completes, with a failed send caught; exactly the encoded message for this recipient and file is sent, unless the service refuses |
| Drive.Matches | gdrive_owner_transfer.js:120 | The `find` test `p.emailAddress === newOwnerEmail`: exact equality, which a permission without an address never meets. FindByEmail states what it selects |
| Drive.NewPermission | gdrive_owner_transfer.js:134-138 | The create request body: role "writer", type "user", the recipient's address, and no pending-owner flag. It has no contract of its own. CreatesExactlyOne states what a create adds |
| Drive.ApplyPatch | gdrive_owner_transfer.js:148-151 | The update request body: the patch's role and pending-owner flag are set, and the id, type and address are kept. The script's patch, `Transfer.PendingOwnerPatch`, is role "writer" with `pendingOwner: true`. It has no contract of its own. MarksOnlyResolved states what an update changes |
| Drive.FirstPage | gdrive_owner_transfer.js:111-116 | The listed page is a prefix of the permissions with at most 100 entries, and is all of them when there are at most 100 |
| Drive.FirstIndex | gdrive_owner_transfer.js:119-121 | `find`: the index found satisfies the test and no earlier one does; none is found only when no entry satisfies it |
| Drive.FindByEmail | gdrive_owner_transfer.js:119-121 | The index found holds a permission whose address is exactly the recipient's, and no earlier one does. None is found only when no permission has that address |
| Drive.IndexOfId | gdrive_owner_transfer.js:144-152 | How the service finds the permission to update: the first index with that id, or none when no permission has it |
| Drive.UpdateById | gdrive_owner_transfer.js:144-152 | The length is kept. Each permission is either kept or patched, and every permission with another id is kept. UpdateOnlyNamed covers the case of unique ids |
| Drive.FindInFirstPage | gdrive_owner_transfer.js:119-121 | The first exact match on the address within the first page is the one found in the listed page |
| Drive.FreshId | gdrive_owner_transfer.js:130-140 | The id given to a created permission differs from every id already on the file |
| Drive.UpdateOnlyNamed | gdrive_owner_transfer.js:144-152 | With unique ids, updating by a permission's id changes that permission alone and keeps ids unique |
| Drive.DriveFile.List | gdrive_owner_transfer.js:111-116 | Returns the service's error, or the first page of the permissions; nothing changes |
| Drive.DriveFile.Create | gdrive_owner_transfer.js:130-140 | On success, exactly one writer permission for the user, with a fresh id, is appended and its id returned; on failure nothing changes |
| Drive.DriveFile.Update | gdrive_owner_transfer.js:144-152 | Fails when the service fails or the id is unknown, with nothing changed; otherwise the named permission gets the patch's role and flag and the others are kept |
| Transfer.Expected | gdrive_owner_transfer.js:106-163 | The workflow as a function. A run adds at most one permission. An aborted run sends nothing and, unless the update was the failing step, leaves the permissions as they were. It stops at list exactly when list fails. A completed run sends at most one message, and it reports the notification exactly when one was sent |
| Transfer.TransferOwnership | gdrive_owner_transfer.js:106-163 | On the Drive file that `fileId` names, the permissions afterwards, the messages sent and the outcome are exactly those `Expected` gives for the permissions before the run |
| Transfer.ResolvedPresent | gdrive_owner_transfer.js:119-141 | The id the run resolves, by reuse or by create, names a permission of the file when the update is issued |
| Transfer.UpdateFailsOnlyWhenCallFails | gdrive_owner_transfer.js:144-152 | The run stops at the update only when the update call itself fails |
| Transfer.ReusesFirstMatch | gdrive_owner_transfer.js:119-127 | When the recipient's first permission is in the first page, its id is used and nothing is created |
| Transfer.CreatesExactlyOne | gdrive_owner_transfer.js:128-141 | Otherwise exactly one writer permission for the user, with a fresh id, is appended after the unchanged earlier ones |
| Transfer.MarksOnlyResolved | gdrive_owner_transfer.js:143-152 | A completed run sets role "writer" and the pending-owner flag on the resolved permission only; every other permission is unchanged |
| Transfer.NeverGrantsOwnership | gdrive_owner_transfer.js:143-152 | No run makes anyone an owner: every owner afterwards was that same owner before |
| Transfer.PreservesUniqueIds | gdrive_owner_transfer.js:106-163 | Permission ids stay unique across a run |
| Transfer.NotifiesOnlyAfterSuccess | gdrive_owner_transfer.js:109-162 | A message is sent if and only if list, a needed create, update and send all succeed, and it is the one message for this recipient and file |
| Transfer.SendFailureSwallowed | gdrive_owner_transfer.js:72-82 | A failed send leaves the permissions and the reported transfer as a successful send would, except for the notified flag |
| Transfer.ResolvedIndex | gdrive_owner_transfer.js:118-152 | After a completed run the resolved permission sits at an index with the recipient's address, role "writer" and the pending-owner flag, and no earlier permission of the first page has that address |
| Transfer.SecondRunReuses | gdrive_owner_transfer.js:118-152 | Running again after a completed run on a file with fewer than 100 permissions reuses the same permission and changes nothing |
| Transfer.CreatesBeyondFirstPage | gdrive_owner_transfer.js:111-141 | When the recipient's permissions all lie beyond the first 100, the script issues a create. The run stops at create when that fails. Otherwise a completed run reports a created permission whose id is not the existing one's |
| Transfer.FirstGrantOnEmptyFile | gdrive_owner_transfer.js:106-163 | On a file with no permissions, a run without failures creates one pending-owner writer permission for the recipient and sends the one message |
| Transfer.NewRecipientScenario | gdrive_owner_transfer.js:106-163 | File "F1", recipient "user@example.com", no permissions: one pending-owner writer permission results and one message is sent |

## Left out

- Authorization is left out because it is file and network I/O outside the transfer. This covers loading, saving and obtaining OAuth credentials (`gdrive_owner_transfer.js:17-46`, `85-103`), the scopes and paths (`5-15`) and the entry point with its hard-coded file and address (`165-172`).
- The console output is left out. The outcome of `TransferOwnership` and the `delivered` flag of `SendGmailNotification` record which message gets printed.
- Asynchrony is left out. Each `await` is a sequential call in the model.
- The request fields `supportsAllDrives`, `fields: "*"` and `sendNotificationEmail: true` are left out. So is the service's own notification email, which Drive sends and the script does not.
- How Drive decides that a call fails is left out. Each remote call's failure is an input flag.
- The contents of an error are left out. Only the fact that an error was caught is modelled.
- Drive.DriveFile.Create: the id the service assigns is modelled by one deterministic fresh id (`Drive.FreshId`). It states only that the id is new, not which id the service picks.
- Drive.DriveFile.Create: the modelled service appends a new permission even for an address that already has one. The real Drive service may instead return the permission that address already holds. So the second permission in `Transfer.CreatesBeyondFirstPage` comes from this modelling choice, not from the script.
- Drive.DriveFile.List: only the first page of 100 is returned, as the script reads it. The page token is never followed, and `Transfer.CreatesBeyondFirstPage` states what follows from that. The list order is taken to be the stored order, with created permissions last. Drive does not document the order it lists permissions in.
- Drive.DriveFile.List, Create and Update take no file id. A `DriveFile` carries its own `id`, and `Transfer.TransferOwnership` requires it to be the `fileId` the message links to. So all four calls name one file, as the script's do.
- Drive.DriveFile.Update: Drive's own rules are left out. These include the owner's consent, whether a user may be a pending owner, and changes the service makes to other permissions.
- Message.ParseCompose, Message.SeparatorUnique, Message.SplitCompose, Message.MessageSeparators, Message.ToField and Notifier.RawMessageRoundTrip require an address without CR. SeparatorUnique and SplitCompose also require a file id without CR. With a CR or a CRLF inside them the header block can no longer be read back, and the script does not check for these.
- Lone surrogates are left out. A Dafny `char` is a Unicode scalar value, so a string in the model cannot hold one. Node's `Buffer.from` would write U+FFFD for one.
