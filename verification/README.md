# cmail in Dafny

cmail is a suite of mail daemons in C: `cmail-smtpd` receives mail, `cmail-dispatchd`
delivers the outbound queue, `cmail-popd` serves mailboxes. This project models their
cores and proves what they promise, on all inputs and over all runs. Where a promise is
broken, the lemma says exactly when.

Every operation exists twice: as a function on values, and as a method with the loops,
buffers and fields of the original, proved to compute that function. The promises are
lemmas about the functions, over whole runs where sessions, daemons or intervals interact.

- **Byte pipeline.** `LineSplitter` (line reassembly), `DotStuffing`, `MailBuffer`,
  `Transparency` (sender to receiver), `HeaderFolding`, `StringReplace`, `Redirect`
  (templates of the redirect router), `Base64`, `Sasl`, `RemoteSpec`, `PortNumbers` (the
  ports of remotes), `PathParsing`, `PathGrammar` (what a spelled-out path is parsed to).
- **POP3.** `MailTables` (the `mailbox` tables), `Maildrops` (lock, snapshot, marks,
  removal), `PopSessions` (the states and commands), `PopInvariant`, `PopRuns` and
  `PopConsistency` (steps of any session), `PopFairness` (whose mail a session deals
  with), `PopTheorems` and `PopRemoval` (every interleaving of sessions and arriving mail),
  `PopOutcomes` (when signing in succeeds, and what it lists).
- **SMTP server.** `SmtpSessions` (five states, authentication, resolution, the path
  pool), `SmtpServer` (its structures), `SmtpInvariant` (every interleaving of sessions),
  `SmtpOutcomes` (when a command succeeds, and what it leaves),
  `Routing` (what each recipient's router stores), `MailEnd` (what a session has let in
  is what gets routed).
- **Outbound queue.** `OutboundQueue` (one transaction), `OutboundRuns` (one remote, one
  interval), `OutboundTheorems` (whole runs), `IdList` (the recipients of a
  transaction), `Dispatcher` (the loops).

A C string is the sequence of its bytes without the terminator, a buffer an `array`. A
database table is a map, a set, a multiset or the sequence of its rows in query order.
What the daemons read from elsewhere is a parameter: the chunks a read returns, the
replies of a peer, what became of connecting to it, whether a statement fails, which
credentials are valid, which address rows match.

Some results are not what the comments in the code suggest:

- A lock statement that fails counts as a lock taken, so that two POP sessions can share a
  maildrop (`PopTheorems.FailedLockShares`; `PopRuns.ExclusionKept` says exactly when). A
  user database that does not open leaves the lock set with nobody holding it.
- Such a sign-in also leaves the user's mail in the maildrop of the connection. The next
  user to sign in there reads it and can delete it (`PopTheorems.LeftoversRemoved`;
  `PopFairness.OnlyOwnMail` and `PopFairness.FairKept` say exactly when).
- A mark that fails is lost, though DELE reports the mail as deleted: QUIT keeps it
  (`PopRemoval.QuitRemovesExactly`, `PopRemoval.LostMarkKept`).
- A mail cut at the size limit is accepted when a prefix of its lines fills the limit
  exactly and it has not made too many hops (`Transparency.SilentTruncation`,
  `Transparency.TruncatedMail`).
- `(from-domain)` keeps its `@` when the recipient has no domain but the sender has one
  (`Redirect.WrongAddress`), and a sender without a domain may get one that an earlier,
  rejected reverse path has left (`Redirect.ResidueInserted`); `Redirect.ValuesIntended`
  says exactly when the router does what was meant.
- The room check of `common_strrepl` counts the text in front of an occurrence twice, and so
  refuses replacements that would fit (`StringReplace.SucceedsWithRoom`,
  `StringReplace.FittingRefused`).
- The base64 decoder accepts texts that re-encode differently (`Base64.DecodeEncode`,
  `Base64.StrayBitsLost`), and a PLAIN response with stray bits behind the password is
  refused (`Sasl.AcceptsExactlyMessages`, `Sasl.StrayBitsRefused`).
- A reverse path that is rejected is not reset: once it had a delimiter, every later
  address with a domain is rejected too, until the mail is reset
  (`PathParsing.RejectedPathStays`, `PathParsing.GoodPathRefused`).
- Originated mail is accepted and dropped when its handoff router has no argument
  (`Routing.AcceptedNowhere`, `Routing.HandoffWithoutRemoteLoses`).
- A dispatch daemon that is stopped between deliveries and bounces attempts mail once more
  than configured when it is started again (`OutboundTheorems.StoppedBeforeBounces`;
  `OutboundTheorems.RetryBound` gives the bound for every queue).

## Model

| member | source | states |
|---|---|---|
| `LineSplitter.SplitUnsplit` | lib/common.c:188-202 | Cutting a stream at its CRLFs loses nothing: lines and tail put together again are the stream. |
| `LineSplitter.UnsplitSplit` | lib/common.c:188-202 | Lines without CRLF, written with CRLF behind each, are cut back into exactly those lines. |
| `LineSplitter.NextLine` | lib/common.c:161-210 | One call in the shared buffer: a finished line is copied back over, the new bytes are scanned, the next line is terminated in place; offsets, return value and every byte kept are those of one step of cutting, and no access leaves the buffer. |
| `LineSplitter.ChunkingIndependence` | lib/common.c:161-210 | For NUL-free streams in non-empty reads, the lines are those of the whole stream if and only if no read ends between a CR and its LF; each such read costs exactly one line break. |
| `LineSplitter.ProcessedDropped` | lib/common.c:169-187 | Without a CRLF in the new bytes: what stands in the buffer in front of two terminators was processed and is dropped; any other tail is kept and the bytes follow it. |
| `Transparency.Receiver.Process` | cmail-smtpd/client.c:329-354 | The read loop takes every line the reads so far complete, hands those within the limit on, and leaves the unfinished tail at the start of the buffer. |
| `MailBuffer.Mail.Line` | cmail-smtpd/mail.c:91-120 | A line is appended behind CRLF unless the buffer is empty or the limit is reached; the buffer grows as needed. |
| `MailBuffer.Mail.DataLine` | cmail-smtpd/smtpstatemachine.c:527-616 | One line in DATA: a leading dot is taken away, a lone dot ends the mail with the verdict size, hops or route, header lines are counted. |
| `DotStuffing.SendBody` | cmail-dispatchd/smtp.c:136-153 | The pointer-advancing loop sends exactly the dot-stuffed body and the terminator. |
| `DotStuffing.StuffedLines` | cmail-dispatchd/smtp.c:136-151 | Stuffing by searching for CRLF-dot is the same as doubling the first dot of every line. |
| `DotStuffing.WireCut` | cmail-dispatchd/smtp.c:136-153 | The bytes on the wire are cut into the stuffed lines of the body and a last line that is a lone dot. |
| `DotStuffing.DecodeWire` | cmail-popd/popfunctions.c:134-164 | Reading up to the lone dot and unstuffing (section 3 of RFC 1939) gives every body back. |
| `Transparency.EndToEnd` | cmail-dispatchd/smtp.c:136-153 | For every NUL-free body, the bytes the dispatch daemon sends, read in any chunks that do not split a CRLF, extend a non-empty mail buffer by exactly CRLF and the body; the mail ends at the last line and not before (section 4.5.2 of RFC 5321). |
| `Transparency.RoomLeft` | cmail-smtpd/client.c:254-264 | At no time during such a delivery does the unfinished line fill the receive buffer. |
| `Transparency.Receive` | cmail-smtpd/coreloop.c:57-64 | So the read loop, repeated for reads of any size that fits, never closes the connection for a line that is too long, and takes the whole delivery like the reads `Transparency.EndToEnd` is about. |
| `Transparency.SilentTruncation` | cmail-smtpd/smtpstatemachine.c:541-552 | With a size limit a mail that was cut is accepted if and only if some proper prefix of its lines makes the buffer exactly as long as the limit and its hops are 30 at most. |
| `Transparency.TruncatedMail` | cmail-smtpd/smtpstatemachine.c:541-552 | Such a mail: two lines, a limit that the first one fills, and the verdict that routes it without the second. |
| `Transparency.HopLimit` | cmail-smtpd/smtpstatemachine.c:543-551 | Whatever the size limit, a mail is refused for its hops if and only if it is not refused for its size and those counted before and the trace lines of its header are more than 30, however it was chunked and stuffed. |
| `Transparency.SizeLimit` | cmail-smtpd/smtpstatemachine.c:541-552 | In every delivery a mail is refused for its size if and only if it is longer than the limit and no proper prefix of its lines fills the limit; what is within the limit is stored whole. |
| `Transparency.LongLinesRefused` | cmail-smtpd/client.c:329-341 | Lines of 1498 bytes and more are answered one by one and have no effect on the mail or on what follows. |
| `Transparency.AfterTheEnd` | cmail-smtpd/client.c:329-341 | Lines behind the end of the mail reach the command states, each and in order. |
| `Transparency.VisibleFront` | cmail-smtpd/client.c:329-341 | The handlers take a line for a C string: they see it up to its first NUL. |
| `HeaderFolding.RecvHeader` | cmail-smtpd/mail.c:152-174 | The scan with in-place termination stores the pieces of the reference folding and leaves all of the mail buffer otherwise alone. |
| `HeaderFolding.FoldConcat` | cmail-smtpd/mail.c:154-174 | The pieces of any header text concatenate to it. |
| `HeaderFolding.FoldLimits` | cmail-smtpd/mail.c:154-174 | Every continuation begins with a space, and every line fits 80 characters or has no space to fold at. |
| `HeaderFolding.FoldShort` | cmail-smtpd/mail.c:152-174 | A header of 80 characters or less is stored as one line. |
| `HeaderFolding.FoldGreedy` | cmail-smtpd/mail.c:152-174 | No line is cut sooner than needed: with the first word of the next line it would be longer than 80, and its own first word is whole. |
| `HeaderFolding.FoldingLosesNothing` | cmail-smtpd/mail.c:152-174 | Both at once, and unfolding the stored lines (section 2.2.3 of RFC 5322) gives a header without line breaks back. |
| `StringReplace.ShiftBack` | lib/common.c:47-54 | The loop that moves the rest of the string to the back and measures the string it is moving anew each round terminates and moves exactly that string. |
| `StringReplace.ShiftForward` | lib/common.c:55-62 | The same for the loop that closes the gap. |
| `StringReplace.StrRepl` | lib/common.c:34-72 | The whole in-place loop computes the stepwise replacement with its room check, NUL-terminated, and writes nothing at or behind `length`. |
| `StringReplace.SuccessIsReplaceAll` | lib/common.c:34-72 | A return of 0 means leftmost, non-overlapping, non-rescanning replacement of every occurrence. |
| `StringReplace.SucceedsWithRoom` | lib/common.c:42-46 | It succeeds if and only if, at every occurrence from the left, the text built in front of it counted twice, the replacement and all that is behind the occurrence are shorter than the limit. |
| `StringReplace.FittingRefused` | lib/common.c:42-46 | So a replacement that fits may be refused: a text of 5 bytes, a limit of 8 and a result of 5. |
| `StringReplace.ReplaceAllJoins` | lib/common.c:34-72 | That replacement keeps the text between the occurrences and exchanges what joins it. |
| `StringReplace.PiecesClean` | lib/common.c:40-69 | No occurrence is missed: the text in between contains none. |
| `Redirect.PassFills` | cmail-smtpd/route.c:158-189 | One replacement in a template fills in exactly the places of its variable. |
| `Redirect.SequentialIsSimultaneous` | cmail-smtpd/route.c:148-189 | Four replacements in a row equal one simultaneous substitution when no value contains an opening parenthesis. |
| `Redirect.TemplateSubstituted` | cmail-smtpd/route.c:148-189 | The same for any template text in which each opening parenthesis begins a variable. |
| `Redirect.ValuesIntended` | cmail-smtpd/route.c:156-186 | For every state the sender's path structure may have been in: the values put in are local part and domain of recipient and sender if and only if a sender with a domain meets a recipient with one, or a sender without has its delimiter at or behind its end and no string begins where the router looks for a domain. |
| `Redirect.ValuesIntendedAfresh` | cmail-smtpd/route.c:156-186 | On a reset structure that is: if and only if the recipient has a domain or the sender has none. |
| `Redirect.WrongAddress` | cmail-smtpd/route.c:183-189 | Where the condition fails: a template, a recipient without domain and a sender with one, the address with two `@` that results, and the one that was meant. |
| `Redirect.ResidueInserted` | cmail-smtpd/route.c:183-189 | Where it fails on a structure that a rejected path has left: a sender without a domain, and the domain of the rejected path in the address that results. |
| `Redirect.RedirectMeansSubstitution` | cmail-smtpd/route.c:148-189 | When that condition holds, a redirect that fits addresses the template with all four variables replaced as intended. |
| `Redirect.ExpandsWithRoom` | cmail-smtpd/route.c:148-189 | A redirect succeeds if and only if each of the four replacements has the room it asks for in what the ones before have made of the template. |
| `Redirect.Expand` | cmail-smtpd/route.c:148-189 | For every state of the sender's path structure, the buffer that is edited in place ends up as the four passes say, or the router fails. |
| `Base64.EncodeInPlace` | lib/auth.c:76-120 | The back-to-front encoder never overwrites input it still needs and computes the mapping of section 4 of RFC 4648. |
| `Base64.AlphabetOfTheStandard` | lib/auth.c:7-120 | The digits are those of table 1 of RFC 4648. |
| `Base64.DecodeInPlace` | lib/auth.c:7-73 | The front-to-back decoder accepts exactly the well-formed texts and computes the octets in place. |
| `Base64.EncodeDecode` | lib/auth.c:7-120 | Decoding the encoding of any non-empty input gives it back with its length. |
| `Base64.DecodeEncode` | lib/auth.c:7-120 | Encoding a decoded text gives it back if and only if it was canonical. |
| `Base64.StrayBitsLost` | lib/auth.c:7-73 | A text that is not canonical: `QR==` decodes, and comes back as `QQ==`. |
| `Sasl.SaslContinue` | lib/sasl.c:64-109 | Decoding and taking apart in place yields user and password, or the data error. |
| `Sasl.AcceptsExactlyMessages` | lib/sasl.c:74-109 | For every text: it is accepted if and only if it is base64, its octets are an authorization identity, a non-empty user and a password (which may be empty, and may be followed by NUL and more) with NUL between them, and no stray bits follow a password that ends the message; it yields that user and password. |
| `Sasl.RfcMessagesAccepted` | lib/sasl.c:74-109 | Every message of section 2 of RFC 4616 with a user and a password, encoded by its sender, is accepted and yields both. |
| `Sasl.EmptyPasswordPasses` | lib/sasl.c:91-95 | The converse fails: `AHUA` is accepted with an empty password. |
| `Sasl.StrayBitsRefused` | lib/sasl.c:91-95 | `AHUAcB==` decodes to a whole message, but is refused for the bit behind it. |
| `RemoteSpec.RemoteEntry.Parse` | cmail-dispatchd/remote.c:27-102 | The in-place parser splits off authentication, port and TLS mode as the reference does, and fails for the same specs. |
| `RemoteSpec.PrepareResponse` | cmail-dispatchd/remote.c:53-67 | Shifting, separating and encoding `user:password` in place gives the encoded PLAIN message. |
| `RemoteSpec.SpecTaken` | cmail-dispatchd/remote.c:27-52 | A domain is taken as it is; in the spec of a handoff what stands in front of the first `@`, empty or not, is credentials, and all behind it host and port. |
| `RemoteSpec.NotTakenApart` | cmail-dispatchd/remote.c:53-64 | Credentials without a colon, or with an empty user, are encoded as they are: the colon that is found is in the byte that is then overwritten. |
| `RemoteSpec.RemoteRoundTrip` | cmail-dispatchd/remote.c:40-99 | A printed remote is parsed back to host, port and mode, and its response makes the server's PLAIN parser recover exactly user and password. |
| `PortNumbers.NumbersRead` | cmail-dispatchd/remote.c:76 | Every number that can be written, decimal, octal or hexadecimal in either case, behind spaces and a sign, is read up to where its digits end: a value of more than 64 bits as the largest, a negative one wrapped around. |
| `PortNumbers.NoNumber` | cmail-dispatchd/remote.c:76 | Where there are no digits the port is 0 and nothing is read. |
| `PortNumbers.PortsRead` | cmail-dispatchd/remote.c:71-99 | A remote with a port: host, the number modulo 16 bits, the TLS mode behind a slash in letters of either case, an unknown one counting as none; anything else behind the number fails. |
| `PathParsing.PathBuffer.Parse` | cmail-smtpd/path.c:2-110 | On a reset path or on one that earlier commands left as it was, the scanning loop agrees with the reference automaton for quotes, escapes, comments, brackets and source routes, within the 300-byte buffer: every byte and the delimiter afterwards, accepted or rejected. |
| `PathParsing.ParseKeeps` | cmail-smtpd/path.c:2-110 | However often a path structure is parsed into, its last byte is a terminator and the others are printable or terminators. |
| `PathParsing.ParseWellDelimited` | cmail-smtpd/path.c:27-108 | Every accepted path is printable, fits the buffer, and is delimited at an `@` or at its end. |
| `PathParsing.RejectedPathStays` | cmail-smtpd/path.c:16-40 | Parsed into a path that still has a delimiter, a spec is accepted if and only if it would be afresh and has no domain, and the delimiter is the old one. |
| `PathParsing.GoodPathRefused` | cmail-smtpd/smtpstatemachine.c:327-329 | So `<a@b>` is rejected behind `<a@b@c>`, though it is accepted on a reset path. |
| `PathParsing.Reparse` | cmail-dispatchd/smtp.c:99-103 | A path without further special characters, printed into a RCPT command, is parsed back to itself. |
| `PathGrammar.ParsesAsMeant` | cmail-smtpd/path.c:2-110 | For every path that is spelled out of characters, escapes, quoted strings, comments, routes, brackets and at most one delimiter, behind any spaces, within the limit: it is accepted, its text is what the parts mean one by one, its delimiter the one among them or its end, and what stands behind a closing bracket, a full text, a last backslash or a route without colon does not matter. |
| `PathGrammar.Refused` | cmail-smtpd/path.c:33-36 | Behind such parts a closing parenthesis, a comment without end, a second delimiter and a delimiter in a text that begins with `@` are refused. |
| `PathGrammar.RouteIgnored` | cmail-smtpd/path.c:16-24 | A source route in front of a path is skipped with its colon: `<@r:a@b>` is `a@b` with delimiter 1. |
| `PathGrammar.CommentIgnored` | cmail-smtpd/path.c:63-66 | A comment at any place of a path is skipped. |
| `PathGrammar.EscapesStand` | cmail-smtpd/path.c:43-62 | A path written with every character but its delimiter escaped is that path, whatever printable characters it consists of. |
| `PathGrammar.QuotesStand` | cmail-smtpd/path.c:40-42 | A quoted local part of printable characters stands for itself, `@` and brackets included. |
| `MailTables.WithoutKeeps` | cmail-popd/database.c:11 | The delete statement keeps exactly the rows whose id the user has not marked. |
| `MailTables.QueryAppend` | cmail-popd/database.c:6 | The listing query takes rows one by one and in order: what it lists of two tables, one behind the other, is what it lists of each. |
| `MailTables.ArrivalFetch` | sql-update/install_master.sql:53-54 | Ids are handed out once: mail that arrives is found under its new id and hides no row. |
| `Maildrops.Database.UpdateLock` | cmail-popd/maildrop.c:63-94 | The lock is compared and set; a statement that fails returns 1. |
| `Maildrops.Maildrop.Read` | cmail-popd/maildrop.c:1-61 | Growing the array by ten, the rows of the listing follow the mails read before, in query order, with the right origin and no flag. |
| `Maildrops.Maildrop.AcquireFor` | cmail-popd/maildrop.c:178-213 | Lock, master listing, attachment and user listing: the snapshot is master rows, then user rows; the lock stays set when the user database does not open. |
| `PopOutcomes.SignInListsAll` | cmail-popd/maildrop.c:178-213 | After a granted sign-in every row of the user, in the master mailbox and in its own database, has exactly one message number, which shows its id, size and ident; rows of a table keep their order, master rows come first, nothing is marked, and every number shows a row of the user. |
| `PopOutcomes.StatCounts` | cmail-popd/popfunctions.c:34-45 | STAT then answers with the number of rows the user has in both databases and the sum of their sizes. |
| `PopOutcomes.SignsIn` | cmail-popd/popstatemachine.c:1-214 | A line signs in if and only if it shows credentials, by PASS behind USER or by SASL, that are valid, and the lock of the identity they authorize is free or fails to be checked and its database opens; the session then holds that maildrop. |
| `PopOutcomes.Prepares` | cmail-popd/popstatemachine.c:1-214 | What every other line of the state leaves: the user of USER, a SASL exchange that begins, goes on, fails or is cancelled, TLS. |
| `PopOutcomes.Refusals` | cmail-popd/popfunctions.c:47-166 | RETR, LIST and UIDL with a number that does not exist, with marked mail, and with mail that is gone. |
| `PopOutcomes.Arrives` | sql-update/install_master.sql:53-54 | Mail may arrive at any place of any mailbox in any state of a run, and is found there under its new id. |
| `Maildrops.Maildrop.MarkOne` | cmail-popd/maildrop.c:215-240 | The mark goes into the deletion table of the database the mail came from. |
| `Maildrops.Maildrop.UnmarkBoth` | cmail-popd/maildrop.c:242-266 | All marks of the user go, in both tables. |
| `Maildrops.Maildrop.Remove` | cmail-popd/maildrop.c:268-318 | The marked rows go from master and user database. |
| `Maildrops.Maildrop.Free` | cmail-popd/maildrop.c:320-368 | Marks and lock of the user are cleared and the maildrop is empty. |
| `PopSessions.Client.StateAuthorization` | cmail-popd/popstatemachine.c:1-214 | STLS, and, with TLS where it is required, USER, PASS and SASL lines, validation with aliases, acquiring, and every way to fail. |
| `PopSessions.Client.StateTransaction` | cmail-popd/popstatemachine.c:216-263 | STAT, LIST, UIDL, RETR, DELE, RSET and QUIT: the new state, what STAT and the listings answer, and every byte RETR sends. |
| `PopSessions.Client.PopDele` | cmail-popd/popfunctions.c:187-209 | Number check, mark and flag; a mark that fails still sets the flag. |
| `PopSessions.Client.PopRset` | cmail-popd/popfunctions.c:211-234 | All marks and all flags are cleared. |
| `PopSessions.Client.PopQuit` | cmail-popd/popfunctions.c:168-185 | Removal, then the release on closing. |
| `PopSessions.Client.PopRetr` | cmail-popd/popfunctions.c:109-166 | What is sent: an error, or the greeting line and the stuffed data of the row the number stands for. |
| `PopSessions.Client.CloseClient` | cmail-popd/client.c:116-141 | Every exit releases the maildrop of whoever is signed in. |
| `PopSessions.ListingShows` | cmail-popd/popfunctions.c:51-60 | LIST and UIDL show exactly the unmarked mails, each under its number. |
| `PopSessions.ListingOrdered` | cmail-popd/popfunctions.c:51-60 | They do so once each and in ascending order. |
| `PopSessions.ListOneIsListAll` | cmail-popd/popfunctions.c:62-75 | LIST or UIDL with a number shows exactly what it shows for that number without one. |
| `PopInvariant.AcquireHolds` | cmail-popd/maildrop.c:178-213 | Acquiring a free maildrop makes lock, snapshot, flags and marks agree, and concerns no other user. |
| `PopInvariant.UpdateUntouched` | cmail-popd/maildrop.c:292-318 | Removing marked rows touches no row of any other user, though the statement deletes by id alone. |
| `PopRuns.ExclusionKept` | cmail-popd/maildrop.c:63-94 | A step of any session keeps mutual exclusion if and only if it does not take a failed lock statement for a success while the maildrop is held or its lock open. |
| `PopConsistency.LoginKept` | cmail-popd/maildrop.c:178-213 | Signing in keeps locks, snapshots and marks consistent if and only if a condition on lock, user database and statement holds beforehand. |
| `PopConsistency.DeleKept` | cmail-popd/popfunctions.c:187-209 | DELE keeps flags and deletion tables in agreement if and only if its mark statement succeeds. |
| `PopConsistency.OrderKept` | cmail-popd/client.c:1-16 | Of all steps of all sessions, exactly those that meet a condition checkable before them keep everything consistent. |
| `PopConsistency.LockedIffHeldOnce` | cmail-popd/maildrop.c:63-94 | Consistency means a lock is set if and only if exactly one open session in TRANSACTION is authorized as that user. |
| `PopTheorems.MutualExclusion` | cmail-popd/popstatemachine.c:78-177 | In every run without a wrongly granted lock no two sessions hold the same maildrop, and every holder has the lock. |
| `PopTheorems.LockIffHolder` | cmail-popd/maildrop.c:178-368 | In every run without faults a lock is set if and only if one session holds it, and that session has shown credentials that authorize the user, its own or those of an alias. |
| `PopTheorems.FailedLockShares` | cmail-popd/maildrop.c:85-93 | A run from the start of the daemon in which one lock statement that fails, and nothing else does, signs a second session in. |
| `PopTheorems.LeftoversRemoved` | cmail-popd/maildrop.c:178-213 | A run from the start of the daemon without any failing statement, in which a user deletes the mail of another one whose database did not open on the same connection. |
| `PopTheorems.TlsBeforeSignIn` | cmail-popd/popstatemachine.c:10-13 | In every run, whatever fails, no session of a listener that requires TLS is signed in without it. |
| `PopFairness.OnlyOwnMail` | cmail-popd/maildrop.c:1-61 | A sign-in that is granted shows the user only mail of its own if and only if no earlier sign-in left any behind on the connection. |
| `PopFairness.FairKept` | cmail-popd/client.c:1-16 | A step of any session keeps every session to the rows of its own user if and only if it grants no maildrop wrongly and signs nobody in over what was left behind. |
| `PopRemoval.FlagsArePicks` | cmail-popd/popfunctions.c:187-234 | In every fair run (no maildrop granted wrongly, nobody signed in over leftovers; marks, unlocking and user databases may fail) the flags of a session are the numbers it has deleted since its last RSET, each with its mark either stored or lost. |
| `PopRemoval.MarksArePicks` | cmail-popd/maildrop.c:215-266 | In every fair run the deletion tables hold for a session exactly the mails it has deleted with their marks stored. |
| `PopRemoval.QuitRemovesExactly` | cmail-popd/maildrop.c:268-318 | In every fair run QUIT removes exactly the mails deleted since the last RSET with their marks stored, from both databases: all that were deleted if and only if no mark failed (section 6 of RFC 1939). All are the user's own, and every other file is left alone. |
| `PopRemoval.LostMarkKept` | cmail-popd/popfunctions.c:187-209 | A run from the start of the daemon: a mark statement fails, the mail counts as deleted, and QUIT leaves it where it was. |
| `PopRemoval.OnlyQuitRemoves` | cmail-popd/client.c:116-141 | No other step, and no other exit, changes a mailbox, apart from mail that arrives. |
| `PopRemoval.NumberStays` | cmail-popd/maildrop.c:1-61 | In every fair run a message number stands for the same row all session, whatever other sessions do. |
| `PopRemoval.RetrieveDelivers` | cmail-popd/popfunctions.c:109-166 | In every fair run RETR n, any time in a session, sends what decodes to the data n stood for at its beginning, which is the user's own, unless n is marked. |
| `SmtpServer.PathPool.Get` | cmail-smtpd/pathpool.c:1-41 | The first free path, or a new one within the limit of 500, or none. |
| `SmtpServer.PathResolve` | cmail-smtpd/path.c:113-198 | The row taken is the first, or with an originating user the first that stores to that user. |
| `SmtpServer.SmtpClient.ResetMail` | cmail-smtpd/mail.c:180-229 | All paths of the session go back to the pool, reset, and the table is empty. |
| `SmtpServer.SmtpClient.StateAuth` | cmail-smtpd/smtpstatemachine.c:91-211 | The exchange continues, is cancelled, fails or signs in, with the originating route of the identity. |
| `SmtpServer.SmtpClient.StateIdle` | cmail-smtpd/smtpstatemachine.c:213-394 | The commands in IDLE, among them AUTH, STARTTLS, after which TLS is being negotiated, and MAIL. |
| `SmtpServer.SmtpClient.HandshakeDone` | cmail-smtpd/client.c:305-316 | A handshake that succeeds turns a negotiation into TLS, and changes nothing else. |
| `SmtpServer.SmtpClient.MailFromCommand` | cmail-smtpd/smtpstatemachine.c:318-382 | Authentication requirement, parsing, resolution, and the check of the originating router. |
| `SmtpServer.SmtpClient.RcptToCommand` | cmail-smtpd/smtpstatemachine.c:402-474 | Slot, path from the pool, parsing, resolution and admission; every refusal gives the path back. |
| `SmtpServer.SmtpClient.ClientLine` | cmail-smtpd/client.c:1-21 | One line in any of the five states. |
| `SmtpSessions.Select` | cmail-smtpd/path.c:123-168 | The row taken is the first there is, for an originating user the one that stores to that user, wherever it stands; none exactly if there is no such row. |
| `SmtpInvariant.RcptOutcome` | cmail-smtpd/smtpstatemachine.c:402-474 | RCPT leaves pool and session as they were, up to one more free path, or appends one path that was free and is now admitted. |
| `SmtpOutcomes.RcptAdmits` | cmail-smtpd/smtpstatemachine.c:402-474 | RCPT takes a recipient if and only if fewer than 150 are taken, a path is free or fewer than 500 exist, the path parses, and its address has a row whose first router is not `reject`, or no row but a domain and an authenticated session; it is then the last recipient, with the text and delimiter parsed and the router of that row. |
| `SmtpOutcomes.MailAdmits` | cmail-smtpd/smtpstatemachine.c:318-382 | MAIL succeeds if and only if authentication, syntax and originating router allow it; the reverse path in each of the four cases. |
| `SmtpOutcomes.SignsIn` | cmail-smtpd/smtpstatemachine.c:91-211 | Whoever shows valid credentials where an exchange may end is signed in, with the router of the identity they authorize; nobody else is. |
| `SmtpOutcomes.ExchangeGoesOn` | cmail-smtpd/smtpstatemachine.c:91-211 | Short of credentials an exchange goes on, or ends without anybody signed in, in AUTH and where it begins. |
| `SmtpOutcomes.Connects` | cmail-smtpd/client.c:93-205 | A connection begins in NEW as the fixed user of its listener, if any, with the router of that user, and with a negotiation first where TLS is all there is; a handshake ends the negotiation. |
| `SmtpOutcomes.MailProceeds` | cmail-smtpd/smtpstatemachine.c:213-616 | HELO, DATA with at least one recipient, the end of the mail, RSET, STARTTLS and QUIT: the state each leaves, with every path given back. |
| `SmtpInvariant.OwnedReset` | cmail-smtpd/mail.c:223-225 | Giving all paths back keeps ownership of everybody else's. |
| `SmtpInvariant.PoolOwnership` | cmail-smtpd/pathpool.c:1-52 | In every reachable state a path is in a transaction if and only if an open session refers to it, then exactly once; free paths are reset; there are at most 500. |
| `SmtpInvariant.Admission` | cmail-smtpd/smtpstatemachine.c:318-474 | In every reachable state: past MAIL on `auth_require` listeners means authenticated; who is authenticated has shown valid credentials where AUTH is offered, or is the listener's fixed user; past MAIL an authenticated user has a router other than `reject`, and with `defined` some row stores the sender's address to the user; recipients of anonymous sessions all have a local router. |
| `SmtpInvariant.AlwaysFresh` | cmail-smtpd/path.c:116-120 | The early exit of `path_resolve` is never taken, and RCPT always parses into a reset path. |
| `Routing.Storage.InsertRow` | cmail-smtpd/mail.c:231-302 | A row is stored, deferred or refused; the master mailbox refuses unknown users. |
| `Routing.Storage.RouteLocalPath` | cmail-smtpd/route.c:63-232 | Store with the retry on master, redirect, handoff, reject, drop and unknown routers. |
| `Routing.Storage.MailRoute` | cmail-smtpd/mail.c:1-48 | The recipient loop stops at the first recipient that is deferred or refused. |
| `Routing.Storage.MailOriginate` | cmail-smtpd/mail.c:50-89 | The originating router: none, drop, handoff, or routing as for inbound mail. |
| `Routing.StoredWhere` | cmail-smtpd/route.c:77-147 | Mail for a user goes to the user's own database if and only if that takes it, else to the master mailbox if that does; unknown users get nothing. |
| `Routing.PathStatus` | cmail-smtpd/route.c:63-232 | For each router, when a recipient succeeds and whether it is deferred or refused if it does not, by the answers of the database alone. |
| `Routing.RedirectsAsMeant` | cmail-smtpd/route.c:147-232 | A recipient with a redirect router has its one row under the address the template means, with local part and domain of the recipient and of the sender as parsed, under the same exact condition. |
| `Routing.PathAdds` | cmail-smtpd/route.c:63-232 | A recipient that succeeds gets exactly the one row its router asks for, even after a failure of the user database; one that fails gets none. |
| `Routing.RoutingConserves` | cmail-smtpd/mail.c:16-47 | 250 means every recipient that needs a row has exactly its row, in order, and nobody else has one; 400 and 500 mean that for the recipients before the failing one, and tell whether that one was deferred or refused. |
| `Routing.HandoffConserves` | cmail-smtpd/mail.c:64-81 | The same for handed-off mail, one row for the remote and each recipient. |
| `Routing.OriginateConserves` | cmail-smtpd/mail.c:50-89 | Originated mail is refused without a router, dropped, handed to the remote that the argument of the router names, one row for each recipient, or routed like inbound mail. |
| `Routing.AcceptedNowhere` | cmail-smtpd/mail.c:61-86 | Originated mail is accepted and stored nowhere if and only if the user's router is `drop`, or a handoff without argument or recipients, or another one and every recipient has a router that takes mail and stores none. |
| `Routing.RoutedNowhere` | cmail-smtpd/mail.c:1-48 | Inbound mail is accepted and stored nowhere if and only if every recipient has such a router. |
| `Routing.HandoffWithoutRemoteLoses` | cmail-smtpd/mail.c:61-83 | Such a mail, with a recipient that would have had its row. |
| `MailEnd.AnonymousMailStaysLocal` | cmail-smtpd/smtpstatemachine.c:556-571 | In every reachable state, whatever its reverse path has left behind, the recipients of an anonymous session are routed locally and are never rejected at that point; when the mail is accepted each has its row. |
| `MailEnd.AuthenticatedMailIsOriginated` | cmail-smtpd/smtpstatemachine.c:572-587 | In every reachable state mail of an authenticated session goes where the router of its identity sends it: that router exists and is not `reject`, a handoff names its argument, and but for `drop` and a handoff without argument every recipient that needs a row has it when the mail is accepted. |
| `Dispatcher.Smtp.MailFrom` | cmail-dispatchd/smtp.c:86-97 | MAIL is accepted on 250, fails for good on 5xx, else temporarily; a lost reply leaves the code 0, or what had been seen of its own code. |
| `Dispatcher.Smtp.DataPhase` | cmail-dispatchd/smtp.c:123-172 | DATA, the stuffed body, and how the two replies are judged. |
| `Dispatcher.Delivery.MailDispatch` | cmail-dispatchd/mail.c:97-190 | The status machine over all recipients, with its failure rows. |
| `Dispatcher.Delivery.HandleTransaction` | cmail-dispatchd/logic.c:164-204 | Dispatch, RSET, and settling: delivered mail is deleted, untouched mail is failed. |
| `Dispatcher.HandleRemote` | cmail-dispatchd/logic.c:349-437 | Delivery over a connection, or one failure row for everybody, or nothing. |
| `Dispatcher.GenerateBounces` | cmail-dispatchd/logic.c:24-152 | For each candidate the bounces to its sender and to `bounce_to`, then its deletion. |
| `Dispatcher.LoopHosts` | cmail-dispatchd/logic.c:468-514 | One interval: remotes, mail queued meanwhile, bounces. |
| `OutboundQueue.RecipientsReplies` | cmail-dispatchd/mail.c:121-159 | Replies are used in order, one for each recipient that still exists, and decide its status. |
| `OutboundQueue.Accounting` | cmail-dispatchd/logic.c:164-204 | For every sequence of replies and distinct recipients, each that exists is either deleted, exactly if MAIL, its RCPT, DATA and the final dot were answered 250, 250, 354 and 250, or stays unchanged with exactly one new row of the right fatality. |
| `OutboundQueue.RepliesDecide` | cmail-dispatchd/smtp.c:86-172 | The same by the codes: MAIL answered 500 to 599 logs a fatal row, anything else but 250 one that is not; an RCPT or final dot answered 400 to 499 or not at all logs one that is not fatal, any other code but 250 a fatal one; DATA answered anything but 354 a fatal one. |
| `OutboundQueue.InStep` | cmail-dispatchd/logic.c:164-204 | A transaction ends with RSET and has read exactly one reply for each command it got to send, by the codes, so that the next one reads its own. |
| `OutboundQueue.LostMailIsTemporary` | cmail-dispatchd/protocol.c:1-24 | A peer that falls silent before answering MAIL fails no recipient for good. |
| `OutboundQueue.OthersKept` | cmail-dispatchd/mail.c:97-190 | A transaction touches no other mail. |
| `OutboundQueue.DeliveredWasSent` | cmail-dispatchd/mail.c:97-180 | What was delivered had been offered and sent whole: MAIL with the sender, RCPT for every recipient that still exists, DATA, and the dot-stuffed data. |
| `IdList.ReadIds` | cmail-dispatchd/mail.c:1-36 | Counting commas and reading number by number recovers exactly the ids the query joined. |
| `OutboundRuns.GroupedBy` | cmail-dispatchd/database.c:2-5 | Mail is grouped by its remote, or else by the host of its recipient: what stands behind its first `@`, or all of it. |
| `OutboundRuns.LogTransactionsKept` | cmail-dispatchd/logic.c:432-437 | When no MX could be reached every recipient still queued gets exactly one row, fatal only if the domain does not exist, and nothing else changes. |
| `OutboundRuns.VisitChange` | cmail-dispatchd/logic.c:349-437 | A visit to a remote attempts each selected mail once, accepted or logged once, and leaves all others alone. |
| `OutboundTheorems.Bounced` | cmail-dispatchd/logic.c:24-152 | The bounces are queued in order, one batch for each candidate; the candidates are gone with their log; nothing else changes. |
| `OutboundTheorems.Conservation` | cmail-dispatchd/logic.c:468-508 | With at least one retry, a mail that is queued at any point of an interval stays unchanged, or leaves for exactly one reason: a peer took it, or it was given up, and then it had no sender or its sender and every `bounce_to` entry have a bounce queued. |
| `OutboundTheorems.RunConserves` | cmail-dispatchd/logic.c:468-508 | The same over every run: a mail queued at any point, mail that arrived meanwhile and bounces included, is still there later if and only if no peer has taken it and it was not given up since; never both; and where it was given up its bounces were queued in that interval, unless it had no sender. |
| `OutboundTheorems.NothingInvented` | cmail-dispatchd/logic.c:108-135 | With at least one retry, the rows an interval adds behind submitted mail are exactly the bounces that are due. |
| `OutboundTheorems.RetryBound` | cmail-dispatchd/database.c:4-8 | With at least one retry, over every run from any queue: after each interval no queued mail has failed for good or `mail_retries` times, every attempt at queued mail is logged, and no mail is attempted more than `mail_retries` times, but for mail that starts with as many attempts and no failure for good, which is tried once more. |
| `OutboundTheorems.PlayCalm` | cmail-dispatchd/logic.c:24-152 | Whatever queue an interval starts from, it leaves no mail that has failed for good or `mail_retries` times. |
| `OutboundTheorems.StoppedBeforeBounces` | cmail-dispatchd/database.c:2-5 | Such a mail: with one retry, a daemon stopped behind the deliveries of an interval attempts it a second time when started again. |

## Left out

- Sockets, TLS, DNS, time, logging, configuration, privileges, the SQLite engine, `LIKE` and password hashing: reads are arbitrary chunks, statements are operations on tables, the rest are parameters.
- The PHP API, the web interface and the administration tools, among them the manual reset of POP locks.
- Command texts: commands are values, except the paths, SASL responses and remote specs that are parsed; replies to clients are modelled for STAT, LIST, UIDL and RETR only.
- Lines that arrive behind QUIT or an error on a connection that was just closed: both daemons still process them on the closed session.
- The TLS handshake itself: in the SMTP daemon it is an event, in the POP daemon STLS counts as negotiated at once; a handshake that fails is a `Hangup`.
- Changes of the database while a daemon runs: `SmtpInvariant.Reachable` and `SmtpInvariant.Admission` take one directory for a whole run, though the address table may change between MAIL and the end of the mail.
- CAPA, XYZZY, NOOP, and the score that ends a session: its end is a `Hangup`.
- Statements other than the lock and the marks of the POP daemon are taken to succeed, and so are allocations.
- The size limit after `mail_reset`, which forgets it: `Transparency` treats one mail.
- `SmtpServer.SmtpClient.MailFromCommand`: takes any outcome of parsing, which covers paths parsed over what a rejected one has left; `MailEnd` and `Routing` take any bytes behind the reverse path.
- `SmtpSessions.Select`: passes over a `store` row without argument, on which the original compares with a null pointer.
- `Redirect.Expand`: asks for a template under 299 bytes and a sender's delimiter before byte 299; beyond that the original reads behind its buffers.
- `Routing.RedirectTarget`: expands templates of 299 bytes and more like others, where the original copies them without a terminator; so does `Routing.Storage.RouteLocalPath`.
- `Routing.Storage.MailRoute`: takes the recipients as a sequence; the original reads one slot behind its table when all 150 are taken.
- `Routing.Storage.RouteLocalPath`: redirects by the function that `Redirect.Expand` is proved to compute, not by editing a buffer of its own.
- `SmtpServer.PathPool.Get`: a pointer into the pool is an index, since paths are not moved or freed while the daemon serves; freeing the pool at the end is not modelled.
- `Dispatcher.HandleRemote`: resolving and connecting, over several MX hosts and ports, is reduced to its outcome, and the transactions are given as the result of their query, so that growing their array past ten is not modelled; `IdList` reads the ids of one.
- `Dispatcher.GenerateBounces`: the text of a bounce, which accumulates over the candidates, is a parameter; only the original data behind it is tracked.
- `OutboundTheorems.Conservation`: asks for at least one retry, like `OutboundTheorems.NothingInvented` and `OutboundTheorems.RetryBound`; without any, all queued mail is up for a bounce, the bounces that are queued while the query for candidates still runs included, and which of them that query meets is up to SQLite.
- `OutboundTheorems.RetryBound`: counts an attempt when a connection was tried; a remote that is skipped, for its host name or a DNS failure that may pass, costs its mail nothing, so that such mail may stay queued for ever.
- Reassembly of replies in `protocol_read`: a reply is one value.
- Widths of machine integers, except in `strtoul`, base64 and the parsed port.
