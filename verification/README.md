# Xinu console tools: a verified model

The Xinu console tools connect users to the serial lines of backend machines. This project
models four parts of them and proves what they promise.

* **The console stream.** `xinu-console` masks and escapes what a user types; `tty-connect`
  undoes the escaping, optionally cooks newlines, and drives the serial line through a 1024-byte
  output buffer; `connectto` relays chunks of any size on either side. (`ConsoleStream.dfy`
  holds the specification, `XinuConsole.dfy`, `TtyConnect.dfy` and `ConnectTo.dfy` the programs.)
* **The reservation server and its wire format.** `xinu-consoled` keeps a table of connections
  and one child process per connection in use. It is a state machine over requests, exits of
  children and timeouts (`Reservations.dfy`), which the imperative server (`Consoled.dfy`)
  follows. Status replies are written by the server and taken apart by the client
  (`StatusCodec.dfy`, `ReplyDecoder.dfy`, `Elapsed.dfy`, `Service.dfy`), which then picks a
  connection (`ClientProbe.dfy`) on one of the servers it knows (`ServerList.dfy`).
* **The configuration file.** The table-driven scanner with its refilled, shifted and growing
  buffer (`ScannerTables.dfy`, `Scanner.dfy`) against the four lexical rules (`Lexicon.dfy`), and
  the parser (`ConfigParser.dfy`) against a line-by-line reading of the file (`Config.dfy`).
* **The power daemon** and its cache of outlet states (`PowerControl.dfy`).

Bytes are integers 0 to 255; a C string is what comes before the first NUL of a field. The
environment is nondeterministic: `write` accepts any prefix of its data or fails, `read`
returns any part of what is there, `fork` fails or returns an unused pid, children exit at any
time, orders to the power device get through or do not, and remote servers answer as they like.
Clocks, what memory held before it was used, the byte behind the array of outlets, the outcomes of
helper connections (`subconnect`) and the test whether a host name is this host's (`ismyname`) are
parameters.

Six things the code does differently from what one would expect are stated as such, each with an
input and the exact condition:

* A break is sent to the line at once, while bytes typed before it in the same chunk still wait
  in the output buffer. `OrderKeptIff` gives the exact condition under which one call keeps the
  order, `OrderKeptThroughoutIff` that for a session, and `BreakOvertakesByte` the smallest
  counterexample.
* The client decodes at most four records of a reply, because it clamps the count with the
  length of the count's field (`MAXNCONNECTIONS`) where the number of connections
  (`MAXCONNECTIONS`) was meant. `CompleteIff` and `StatusReceived` say when a listing arrives whole;
  `FiveRecords` is one that does not. The walk over the candidates nevertheless goes through as many
  records as the header counts. `WalkedIffShown` and `WalkSeesListingIff` say when all of these have
  been decoded; in `FifthLooksFree`, of five connections in use, old memory makes one look free. The
  walk leaves the reply altogether if the header counts more than 512 (`WalkStaysInsideIff`,
  `FourUnderMore`).
* For each reply it has received, a pass of the client divides by the number of candidates in it,
  and the pass that steals comes after the one that does not. `FirstPassSafeIff` (on replies in
  `ClientProbe`, on servers in `Service`) says that the first pass is safe, whatever the servers
  grant, exactly if every reply has a free connection. It can fail when one server has all its
  connections in use, which is when stealing was needed (`StealNotReached`), or has none of the
  class asked for, although another has a free one (`EmptyThenFree`, `FreeButNotReached`).
* A valid power command can name outlet 48, which lies outside the array (`InArrayIff`,
  `OutsideArray`). The byte behind the array then serves as its cell, which switching everything
  off does not reset. `Outlet48Iff` says exactly when the outlet still is as the commands want it,
  and `Outlet48StaysOff` shows commands that want it on and leave it off.
* A word of the configuration file that begins with a NUL is empty. Where the parser takes a word
  for a header or a name it looks at its last byte, and for an empty one at the byte before it.
  `ReadConfigurationFile` says that this happens exactly if `NamesSound` fails, as for `NulFile`.
* The manual page calls the list of servers colon-delimited; the code cuts it at spaces.
  `ColonListIff` says for which lists this makes no difference, and `ColonListUncut` shows one for
  which it does.

## Model

| member | source | states |
|---|---|---|
| ConsoleStream.RoundTrip | src/tty-connect.c:295-328 | Decoding the escaped form of any bytes and breaks gives exactly those events (newlines cooked if asked for), with no escape pending: no byte becomes a break |
| ConsoleStream.ChunkingIrrelevant | src/tty-connect.c:287-328 | Because the escape flag survives between calls, decoding read by read equals decoding the whole stream, wherever the reads cut it |
| ConsoleStream.WireForm | src/tty-connect.c:293-327 | The bytes themselves: a break is `\b`, a backslash is doubled, any other escaped byte stands for itself, a lone backslash waits |
| ConsoleStream.CookedForm | src/tty-connect.c:305-310 | A newline gains a carriage return in front of it, unless it was escaped |
| ConsoleStream.CookedContents | src/tty-connect.c:305-310 | Cooking changes each newline byte to CR LF and nothing else, and no break |
| ConsoleStream.DeliveredContents | src/tty-connect.c:208-262 | The output buffer loses, duplicates and reorders no byte, and the number of breaks is kept |
| ConsoleStream.OrderKeptIff | src/tty-connect.c:312-321 | One call keeps breaks in their place among the bytes if and only if all its breaks come before its first byte |
| ConsoleStream.OrderKeptThroughoutIff | src/tty-connect.c:287-328 | Over any number of calls every break keeps its place if and only if in each call the breaks lead |
| ConsoleStream.BreakOvertakesPending | src/tty-connect.c:208-245 | A break overtakes exactly the bytes still in the buffer: all but the whole 1024s that lie before the last byte |
| ConsoleStream.BreakOvertakesByte | src/tty-connect.c:312-321 | The input `a`, break: the break reaches the line first |
| ConsoleStream.EncodeMenu | src/xinu-console.c:245-360 | What a key pressed in the command menu, and the keys after it, put on the network |
| ConsoleStream.MenuBreak | src/xinu-console.c:309-312 | NUL and `b` ask for one break and return to typing |
| ConsoleStream.MenuOpens | src/xinu-console.c:603-617 | NUL opens the menu and means nothing itself |
| ConsoleStream.MenuContinue | src/xinu-console.c:295-296 | NUL, `c` and more keys mean those keys |
| ConsoleStream.MenuExit | src/xinu-console.c:292-293 | NUL, `x` and more keys mean nothing: the session is over |
| ConsoleStream.MenuQuit | src/xinu-console.c:280-290 | NUL and `q` or EOT resume the session if and only if the helper connection succeeds, and end it otherwise |
| ConsoleStream.MenuHelper | src/xinu-console.c:315-357 | NUL and `d`, `p`, `f` or `n` resume the session if and only if the helper connection succeeds, and leave the menu open otherwise |
| ConsoleStream.MenuOther | src/xinu-console.c:260-278 | Any other key leaves the menu open and means nothing |
| ConsoleStream.TopBitIgnored | src/xinu-console.c:577-579 | A key means the same with its top bit set |
| ConsoleStream.TypingIsData | src/xinu-console.c:577-603 | Keys without NUL mean their low seven bits, in order |
| ConsoleStream.KeysTypeEvents | src/xinu-console.c:569-628 | Every sequence of 7-bit non-NUL bytes and breaks can be typed |
| TtyConnect.Driver.PutCharStart | src/tty-connect.c:197-202 | An empty buffer and a zero count |
| TtyConnect.Driver.PutCharFlush | src/tty-connect.c:208-226 | On success the pending bytes are on the line; on failure the count drops and the bytes stay pending |
| TtyConnect.Driver.PutChar | src/tty-connect.c:232-245 | On success the line has got, or is owed, one more byte than before; on failure a write was short |
| TtyConnect.Driver.PutCharEnd | src/tty-connect.c:248-260 | The result is the count, reduced exactly if a write was short |
| TtyConnect.Driver.FlushByte | src/tty-connect.c:293-327 | One byte: the escape state follows the decoder, and the line is owed what the byte decodes to |
| TtyConnect.Driver.FlushData | src/tty-connect.c:269-331 | With complete writes the line gets what the chunk decodes to, as the buffer lets it out, and the result is the length plus the newlines cooked; uncooked, the result is the length if and only if every write was complete, and less otherwise |
| XinuConsole.MaskedKeys | src/xinu-console.c:577-579 | Masking the chunk in place does not change what its keys mean |
| XinuConsole.Console.GetInput | src/xinu-console.c:534-547 | The next key comes from the chunk if it has one, else from the terminal |
| XinuConsole.Console.MenuKey | src/xinu-console.c:257-360 | One menu key: what is owed to the network is unchanged, and the session goes on or ends as the key says |
| XinuConsole.Console.HandleBreak | src/xinu-console.c:245-360 | The menu consumes keys from the chunk and the terminal until it closes, without changing what is owed |
| XinuConsole.Console.MaskBuffer | src/xinu-console.c:577-579 | Every byte of the chunk loses its top bit, in place |
| XinuConsole.Console.FlushToNet | src/xinu-console.c:569-628 | With complete writes everything the chunk means has been sent; without NUL, whatever the writes return, a prefix of the escaped chunk has been sent, a result r below the length tells that the first r bytes went out in full, and the length is returned if and only if all did |
| ConnectTo.RelayGoesOnIff | lib/connectto.c:25-39 | The relay goes on if and only if at least as much was written as was read; cooking writes more |
| ConnectTo.ClientTurn | lib/connectto.c:12-40 | One read of the keyboard of any size keeps what the network is owed |
| ConnectTo.ServerTurn | lib/connectto.c:12-40 | One read of the network of any size is decoded onto the line; uncooked, the relay stops if and only if a write was short |
| ConnectTo.Session | lib/connectto.c:61-102 | Whole sessions, with the two relays interleaved and every chunking: the line receives exactly the bytes the keys mean, and exactly as many breaks; and all of it in order if and only if in every read of the network the breaks came before the bytes |
| ConnectTo.TypeEvents | src/tty-connect.c:269-331 | End to end: typed 7-bit bytes arrive unchanged (or cooked), breaks are counted exactly, and the order is kept under the same condition |
| Lexicon.FirstLexemeIsLexeme | src/scanner.l:35-49 | The longest match of the rules, earliest on a tie, is as computed; the default rule never wins |
| Lexicon.LexemeUnique | src/scanner.l:35-49 | There is only one longest match and earliest rule |
| Lexicon.LexemesCover | src/scanner.l:35-49 | The lexemes, end to end, are the text |
| Lexicon.TakeLexeme | src/scanner.l:39-49 | Taking flex's choice off a text takes its token off the tokens |
| Lexicon.WordsNonempty | src/scanner.l:46-49 | In a text without NULs every word has at least one byte |
| Lexicon.TokensOfBlanks | src/scanner.l:39-44 | Spaces, tabs and continued lines are no tokens; a newline is one |
| Lexicon.TokensOfComment | src/scanner.l:41-42 | A comment is no token, and ends before its newline |
| Lexicon.TokensOfWord | src/scanner.l:46-49 | Anything else up to the next blank or newline is one word |
| ScannerTables.DefaultsEnd | src/scanner.c:339-361 | The chain of defaults gets shorter, and ends at a table entry that belongs to the state |
| ScannerTables.Step | src/scanner.c:611-617 | The loop over the compressed tables ends and takes the step they define |
| ScannerTables.StepMeans | src/scanner.c:296-361 | Each state describes exactly the strings that lead to it; a jam means that no rule matches any further |
| ScannerTables.FinalMeans | src/scanner.c:620 | Stopping on a base of 15 is safe: no rule matches any further |
| ScannerTables.AcceptMeans | src/scanner.c:296-300 | `yy_accept` gives the earliest rule that matches, and never rule 5 |
| ScannerTables.LexemeFound | src/scanner.c:601-631 | A scan that jams, stops or reaches the end of the text has found flex's choice |
| ScannerTables.NulGoesOn | src/scanner.c:988-1012 | A NUL of the text never jams |
| Scanner.Scanner.Match | src/scanner.c:602-620 | The match loop runs to a final state, a jam or a NUL, and leaves the last accepting state behind |
| Scanner.Scanner.FindAction | src/scanner.c:622-631 | Backing up to the last accepting state, and cutting off yytext |
| Scanner.Scanner.GetPreviousState | src/scanner.c:952-977 | The state of the partial lexeme, computed again from its bytes |
| Scanner.Scanner.YyInput | src/scanner.c:487-502 | A read of any size moves bytes from the file to the buffer; none only at the end of the file |
| Scanner.Scanner.Grow | src/scanner.c:866-909 | Doubling ends with room for at least one byte, and keeps the bytes in the buffer |
| Scanner.Scanner.GetNextBuffer | src/scanner.c:820-947 | Partial lexeme and unread text, end to end, are unchanged by a refill; two end markers lie within the buffer; the three results mean what they say |
| Scanner.Scanner.EndOfBuffer | src/scanner.c:682-802 | A NUL of the text is stepped over and an end marker refills the buffer, resuming in the same state |
| Scanner.Scanner.ScanLexeme | src/scanner.c:589-644 | One turn takes exactly flex's choice off the unread text, at least one byte, and terminates |
| Scanner.Scanner.YyLex | src/scanner.c:555-809 | The next token of the text, independent of buffer size and reads |
| Scanner.Tokenizer.TkNext | src/scanner.l:58-73 | The next token; end of file is remembered; newlines are counted |
| Scanner.Tokenizer.ReadAll | src/scanner.l:58-73 | Reading to the end gives the tokens of the text for every buffer size and every sequence of reads |
| Config.NulFreeFile | src/support.c:160 | A file without NULs never makes the parser look before the beginning of a word |
| Config.NulFile | src/support.c:160 | A file of NUL and newline does |
| Config.HeaderFirst | src/support.c:160-170 | A word ending in a colon is a header, and its line goes on behind it |
| Config.EntryLine | src/support.c:172-225 | A line of three to nineteen words within their limits is an entry |
| Config.BadLine | src/support.c:174-220 | Any other line that does not begin with a header is an error |
| Config.LineMeans | src/support.c:172-225 | In numbers: a name and a class of up to 15 bytes, a program and up to 16 arguments of up to 63 bytes are an entry that holds them in that order; any other line is bad |
| Config.HeaderMeans | src/support.c:160-170 | A word that ends with a colon names the host before the colon |
| Config.JoinedBySpaces | src/support.c:209-213 | The arguments are joined by single spaces |
| Config.KeptIs | src/support.c:160-170 | The entries kept are, in file order, exactly those before any header, or whose nearest header in front of them has an empty name or one that is this host's |
| Config.MeaningIs | src/support.c:74-77 | A file is refused exactly if a line is bad or more than 512 entries are this host's; else the table is these entries |
| Config.ArgslineFits | src/support.c:195-213 | The joined arguments and their terminator need at most the 1024 bytes of `argsline` |
| Config.MeaningWithinLimits | src/support.c:74-77 | Accepted tables have at most 512 entries, each within its limits |
| ConfigParser.MakeCondata | src/support.c:222-225 | A new entry is unused and its user field is terminated at both ends, whatever memory held |
| ConfigParser.Parser.SkipNewlines | src/support.c:127-134 | Blank lines mean nothing |
| ConfigParser.Parser.MatchString | src/support.c:86-95 | The next word of the line, or an error if there is none |
| ConfigParser.Parser.ParseArgs | src/support.c:195-220 | The arguments and their join; an error exactly on an argument too long or too many |
| ConfigParser.Parser.ParseEntry | src/support.c:172-220 | The rest of an entry, as the line means it, or an error exactly if the line is bad |
| ConfigParser.Parser.MakeEntry | src/support.c:140-233 | The next entry whose governing header is absent, empty or mine; errors only for bad lines, and astray only on an empty name |
| ConfigParser.ReadConfigurationFile | src/support.c:54-80 | From the bytes of any file: the parser meets an empty word where it takes one for a header or name, and looks before its beginning, if and only if `NamesSound` fails; otherwise an error if and only if a line is bad or there are too many entries, else a table of exactly the entries that are this host's by their nearest header, in file order, all unused |
| Elapsed.TimeTextFits | src/xinu-consoled.c:584-597 | Below 100000 hours the time text fits its 12 bytes |
| Elapsed.TimeTextIs | src/xinu-consoled.c:584-597 | The time text is hours, minutes and seconds, of at least two digits each, with colons between |
| Elapsed.AtoiForms | lib/connectUtils.c:94 | Spaces are skipped, a sign is taken, and other text reads as zero |
| Elapsed.MinutesOf | lib/makeConnection.c:17-26 | From what is scanned of a text: minutes, and sixty for each hour if there are any |
| Elapsed.NegativeHours | lib/makeConnection.c:22-24 | Hours below zero do not count |
| Elapsed.AtoiDigits | lib/connectUtils.c:94 | A printed number is read back |
| Elapsed.MinutesRoundTrip | lib/makeConnection.c:17-26 | The client reads e/60 minutes for every elapsed time e |
| Elapsed.StealIff | lib/makeConnection.c:45 | The ten-minute test holds if and only if the server measured at least 600 seconds |
| StatusCodec.RoundTrip | lib/connectUtils.c:107-153 | Decoding n of the encoded records gives the first n back, and stops right behind them |
| StatusCodec.CompleteIff | lib/connectUtils.c:94-97 | With a clamp, the listing comes back whole if and only if it is no longer than the clamp |
| StatusCodec.PrefixRejected | lib/connectUtils.c:113-152 | Every strict prefix of an encoding is rejected |
| StatusCodec.AcceptedIsEncoding | lib/connectUtils.c:113-152 | Whatever is accepted is an encoding, up to the value of the mark |
| StatusCodec.EncodedSize | src/xinu-consoled.c:554-598 | At most 61 bytes per record |
| Reservations.LookupIsFirstListed | src/support.c:29-45 | A named request acts on the first entry Status would list for it, and finds none if and only if it would list none |
| Reservations.TestsAreEqualities | src/support.c:34-42 | For names within their limits the tests compare whole names, and an empty class stands for any |
| Reservations.FilterIs | src/xinu-consoled.c:556-566 | What a status request lists are exactly the entries with the name and the class asked for, in the order of the table |
| Reservations.StartInv | src/support.c:222-225 | A table just read is consistent with having no children |
| Reservations.StepInv | src/xinu-consoled.c:349-363 | Every step keeps the entries in use and the unreaped children in one-to-one correspondence, and user names terminated |
| Reservations.RunInv | src/xinu-consoled.c:349-363 | So does every run |
| Reservations.ReapFreesOne | src/xinu-consoled.c:743-749 | A reaped child frees exactly one entry and changes no other |
| Reservations.FreedIs | src/xinu-consoled.c:743-749 | A freed entry has no process, no user and no time |
| Reservations.CollectIs | src/xinu-consoled.c:728-751 | Collecting the dead frees exactly their entries and changes nothing else |
| Reservations.KillsOwnChildren | src/xinu-consoled.c:501-518 | Requests signal only running children of the server |
| Reservations.CleanUpKillsChildren | src/xinu-consoled.c:609-619 | Shutting down signals every child once, and no other process |
| Reservations.StepHeld | src/xinu-consoled.c:455-518 | A step that does not reap the child keeps process and user of its entry; a make on it is refused; its time changes exactly by a touch of its user |
| Reservations.RunHeld | src/xinu-consoled.c:485-518 | From any state in which a child holds an entry, in every run that does not reap it, process and user stay |
| Reservations.RunExcludes | src/xinu-consoled.c:455-499 | In such a run every make is refused, and only its user's touches move the time |
| Reservations.MakeHoldsIff | src/xinu-consoled.c:485-499 | A make for which fork succeeds gives the entry to the new child, with the requester's name and the time, if and only if the entry was free or its child was dead; no other entry is concerned |
| Reservations.RunFromMake | src/xinu-consoled.c:485-518 | From a successful make until the child is reaped, in every run: process and user stay, every other make is refused, and only the user's touches move the time |
| Reservations.BreakKeepsHolder | src/xinu-consoled.c:501-518 | A break kills the child that holds the entry, once, and says so; the entry stays the child's, so that it can be made again only after the reap |
| Reservations.BreakThenMakeIff | src/xinu-consoled.c:485-518 | After a break, a make of the same connection succeeds if and only if the killed child has exited in between, and is refused otherwise |
| Reservations.OtherRequests | src/xinu-consoled.c:396-528 | Requests of another version, of an unknown code, for verbosity, or for a name no entry has: the answer, and that no entry changes |
| Reservations.FreeIsLeftAlone | src/xinu-consoled.c:455-518 | A free connection can be neither broken nor touched |
| Reservations.MakeAnswersNothing | src/xinu-consoled.c:485-499 | A make of a free connection is not answered by the server itself, and changes nothing if fork fails |
| Reservations.NothingElse | src/xinu-consoled.c:349-363 | What every step leaves as it is: only breaks signal, only touches and makes write the table apart from collecting |
| Reservations.UserKept | src/xinu-consoled.c:718 | The stored user is the requester's, cut to 15 bytes and terminated |
| Reservations.RequestArrives | lib/connectUtils.c:189-214 | Version and code reach the server, and names cut to 15 bytes |
| Reservations.TouchIffSameUser | src/xinu-consoled.c:460-464 | A touch is accepted if and only if its user is the maker, whose name was cut to 15 bytes; names need not be terminated |
| Reservations.RunKeepsInfos | src/xinu-consoled.c:349-363 | Runs never change the names of the table |
| Reservations.RunShadowedFree | src/xinu-consoled.c:489-498 | An entry with an earlier duplicate of name and class stays free in every run |
| Consoled.Scopy | src/xinu-consoled.c:530-537 | The string and its terminator are appended |
| Consoled.WriteEntry | src/xinu-consoled.c:567-597 | One record is appended to the details |
| Consoled.Daemon.Free | src/xinu-consoled.c:743-749 | The entries of one child are freed |
| Consoled.Daemon.FindDeadChildren | src/xinu-consoled.c:728-751 | All children that have exited are reaped, in any order, and their entries freed |
| Consoled.Daemon.GetCondata | src/support.c:29-45 | The index of the first match |
| Consoled.Daemon.Status | src/xinu-consoled.c:544-603 | The details hold the encoding of the listing, within their buffer |
| Consoled.Daemon.MakeConnection | src/xinu-consoled.c:668-721 | The entry records the child, or nothing changes if fork fails |
| Consoled.Daemon.ProcessRequest | src/xinu-consoled.c:396-528 | The new state and the reply are those of the state machine |
| Consoled.Daemon.Turn | src/xinu-consoled.c:356-362 | One turn of the main loop is one step, possible for the kernel, that keeps the invariant |
| Consoled.Daemon.CleanUp | src/xinu-consoled.c:609-619 | The kills sent at shutdown |
| Consoled.Serve | src/xinu-consoled.c:349-363 | The main loop goes through a run of the state machine that serves exactly the requests that arrived, in order and at their times, with children exiting in between, and its replies are those of the run |
| Consoled.TurnAndReply | src/xinu-consoled.c:349-363 | The replies are, one by one, those to the requests taken, in the state in which they were taken |
| Consoled.Start | src/xinu-consoled.c:332-363 | From the bytes of the configuration file and the requests that arrive: an error, or such a run on the table the file means |
| ReplyDecoder.Sget | lib/connectUtils.c:29-46 | Reads only what is there, writes only within the field, and accepts exactly terminated strings that fit |
| ReplyDecoder.GetRecord | lib/connectUtils.c:113-153 | One record is decoded in place, within its 61 bytes, or rejected |
| ReplyDecoder.GetRecords | lib/connectUtils.c:107-154 | All records land in their places, or the reply is rejected |
| ReplyDecoder.CopyHeader | lib/connectUtils.c:88-92 | The header is copied with its strings terminated |
| ReplyDecoder.RecvFromReply | lib/connectUtils.c:48-157 | Exactly the packets that can be taken apart are accepted; the reply then holds the header with its count, and the records that were looked for, with old memory behind them, or the text |
| ReplyDecoder.WalkedIffShown | lib/connectUtils.c:94-107 | Every record a client walks has been decoded, if and only if the header counts at most `MAXNCONNECTIONS` |
| ReplyDecoder.CountArrives | src/xinu-consoled.c:600-602 | The count survives its 4-byte field; the decoder looks for no more than the clamp |
| ReplyDecoder.PacketShows | lib/connectUtils.c:94-154 | Records under a header that counts more than there are: as many as the decoder looks for are shown |
| ReplyDecoder.PacketRoundTrip | lib/connectUtils.c:94-154 | A packet of any fitting listing is accepted and its first four records come back |
| ReplyDecoder.FiveRecords | lib/connectUtils.c:94-97 | Five records: the packet is accepted, the header counts five, four are decoded |
| ReplyDecoder.CutPacketRejected | lib/connectUtils.c:94-154 | A packet whose records are cut short is rejected |
| ReplyDecoder.MessageRoundTrip | src/xinu-consoled.c:370-388 | A text shorter than the details comes back unchanged |
| ReplyDecoder.OthersRejected | lib/connectUtils.c:76-86 | Packets too short for a header, or of another version, are rejected |
| ReplyDecoder.PacketLayout | include/cserver.h:83-89 | Where version, code, host name, count and details lie in a packet |
| ReplyDecoder.RecordBytes | src/xinu-consoled.c:567-597 | The bytes of a record, active and inactive |
| Service.ListingFits | src/xinu-consoled.c:554-602 | Any listing of a consistent server fits the reply, its fields and its count |
| Service.StatusEndToEnd | src/xinu-consoled.c:544-603 | From any accepted file, after any run: at most 61 bytes per entry, within the reply, and the first min(n, clamp) records decode and describe their connections |
| Service.StatusAnswer | src/xinu-consoled.c:544-603 | The answer to a status request counts exactly the entries with the name and class asked for, and its decoded records show, in order, their names, whether they are in use, by whom, and hours, minutes and seconds since when |
| Service.StatusReceived | lib/connectUtils.c:94-154 | The reply packet is accepted, shows the first four records, and shows all if and only if there are at most four |
| Service.StealEndToEnd | lib/makeConnection.c:41-47 | The client's test on a received record is the server's clock |
| Service.ListingReadable | lib/makeConnection.c:100-118 | In every listing of a consistent server all times can be read, and a slot is a candidate if and only if it is free, or, when stealing, at least 600 seconds in use |
| Service.ProbeEndToEnd | lib/makeConnection.c:82-152 | From the server's table through its packet to the walk, for a listing of any length: the first four records are candidates exactly if the connection is free (or long enough in use), the others are judged by old memory; up to four, the walk sees exactly the listing |
| Service.FirstPassSafeIff | lib/makeConnection.c:82-152 | Many servers: whatever they grant, the first pass does not divide by zero if and only if every one of them offers something free |
| ClientProbe.FindCandidates | lib/makeConnection.c:94-120 | The array of candidates never overflows and holds exactly the free, or expired, slots |
| ClientProbe.CycleVisitsAll | lib/makeConnection.c:122-149 | A modular walk from any start visits every candidate exactly once |
| ClientProbe.TryConnection | lib/makeConnection.c:32-76 | One attempt: a free record is asked a make; when stealing, one in use for ten minutes is asked a break, and if that is granted a make; any other is asked nothing |
| ClientProbe.WalkAsksAll | lib/makeConnection.c:122-149 | Nothing is left out: without stealing, exactly one make for each tried record, in order; with stealing, a break for each tried record in use for ten minutes |
| ClientProbe.TryCandidates | lib/makeConnection.c:122-149 | From every random start: each candidate at most once, in cyclic order, all if none succeeds; without stealing only makes are asked, and with stealing every make comes directly after a granted break of the same connection, and every granted break is followed by it |
| ClientProbe.GetTCPConnection | lib/makeConnection.c:82-152 | One pass over all replies, in order, until a connection is found; it divides by zero exactly in front of a reply without candidates; what it asks is proper and complete in the sense of the two rows above |
| ClientProbe.RefusedEndsIff | lib/makeConnection.c:122-124 | A first pass that finds nothing gets through all replies if and only if each of them has a candidate |
| ClientProbe.FirstPassSafeIff | lib/makeConnection.c:122-124 | No first pass divides by zero, whatever the servers grant, if and only if every reply has a free connection |
| ClientProbe.SeenIffShown | lib/makeConnection.c:91-101 | The records walked are those decoded, if and only if the header counts at most `MAXNCONNECTIONS` |
| ClientProbe.WalkSeesListingIff | lib/makeConnection.c:91-101 | The walk sees the listing that was sent, whatever memory held before, if and only if it has at most `MAXNCONNECTIONS` records |
| ClientProbe.FifthLooksFree | lib/makeConnection.c:94-117 | Five connections in use: with zeroed memory the fifth slot is the one candidate |
| ClientProbe.WalkStaysInsideIff | lib/makeConnection.c:91-101 | The walk depends only on what the reply holds, if and only if the header counts at most 512 records |
| ClientProbe.FourUnderMore | lib/connectUtils.c:94-97 | Four records under a header that counts from 513 to 999: accepted, and the walk leaves the reply |
| ClientProbe.ObtainStatus | lib/obtainStatus.c:208-232 | The packets before the first rejected one are received, each into new memory, and held as the walk is to see them |
| ClientProbe.MakeConnection | lib/makeConnection.c:408-425 | Any packets: if their headers count nothing, nothing is asked; else a pass over the replies that asks for no break, and only if it ends without a connection one that steals, both over what is seen of the packets |
| ClientProbe.StealNotReached | lib/makeConnection.c:122-124 | A connection in use for ten minutes: a candidate for the second pass, none for the first, which divides by their number |
| ClientProbe.EmptyThenFree | lib/obtainStatus.c:208-232 | Two servers, of which the first lists nothing: both replies are kept, and the total is not zero |
| ClientProbe.FreeButNotReached | lib/makeConnection.c:122-124 | On these two the first pass divides by zero although the second has a free connection |
| ServerList.WordsCover | lib/obtainStatus.c:43-64 | Words are not empty and hold no separator, and nothing but separators is left out |
| ServerList.WordsAreMaximal | lib/obtainStatus.c:43-64 | The words are exactly the maximal substrings without a separator, in order |
| ServerList.ColonListIff | man/xinu-console.1:63 | Cutting at spaces reads a colon-separated list as it is meant, if and only if it holds neither space nor colon |
| ServerList.ColonListUncut | man/xinu-console.1:63 | `a:b` is two servers by the manual, and one by the code |
| ServerList.TakeWord | lib/obtainStatus.c:50-60 | One word is cut off in place |
| ServerList.GetServers | lib/obtainStatus.c:43-66 | The slots point at the first 127 words, in order, with NULL behind the last, and no store misses the table |
| PowerControl.ValidCommand | lib/xinu-power.c:16-42 | Exactly `off` and `u`, `d`, `r` with 01 to 48 are valid |
| PowerControl.ParseIff | lib/xinu-power.c:16-42 | Which text is which command, by its bytes |
| PowerControl.InArrayIff | src/xinu-powerd.c:37-39 | A valid command stays within the array if and only if it does not name outlet 48 |
| PowerControl.OutsideArray | lib/xinu-power.c:35 | `u48` is valid and outside |
| PowerControl.SkippingHarmless | src/xinu-powerd.c:302-326 | For the outlets of the array, skipping redundant orders leaves each as the commands want it, just as never skipping does, and the cache knows it |
| PowerControl.WantedIff | src/xinu-powerd.c:282-329 | An outlet is wanted on if and only if the last command that concerns it switches it on |
| PowerControl.LitIff | lib/rpc.c:35-93 | An outlet is on if and only if the last order that concerns it switches it on |
| PowerControl.OrdersSent | src/xinu-powerd.c:282-329 | The orders of one more command, by whether the outlet is wanted on: nothing to switch it on again, off and on to reboot it, and always one to switch it off |
| PowerControl.RebootRestarts | src/xinu-powerd.c:312-326 | While the orders of a reboot are carried out the outlet is off at some point, and it is on after them; outlet 48 included |
| PowerControl.OthersUndisturbed | src/xinu-powerd.c:282-329 | All that time every outlet the command does not name stays as it is, unless everything is switched off |
| PowerControl.UpDoesNotInterrupt | src/xinu-powerd.c:304-311 | An outlet that is on stays on throughout when it is switched on |
| PowerControl.Outlet48Iff | src/xinu-powerd.c:304-311 | Outlet 48 is as the commands want it, if and only if no `up` was skipped because of the byte behind the array and has not been settled since |
| PowerControl.Outlet48StaysOff | src/xinu-powerd.c:304-311 | Up, all off, up: outlet 48 is wanted on and is off, whatever lay behind the array |
| PowerControl.Powerd.InitDevice | src/xinu-powerd.c:184-189 | Every outlet of the array off, in the cache and on the device; the byte behind stays |
| PowerControl.Powerd.ExecuteCommand | src/xinu-powerd.c:282-329 | For every valid command: the new cells, the orders sent, and the cache still agrees with the device |
| PowerControl.Serve | src/xinu-powerd.c:88-165 | After any commands the cache is what they want; if every order got through, the device got the orders of the run and agrees with the cache |

## Left out

- Sockets, select, alarms, broadcast, host lookup, TCP wrappers, privileges, daemonising, logging and usage text: input and output around the modelled logic.
- The command menu's download and spawn prompts read a file name through stdio; the model takes their outcome as a parameter and lets them consume no keys. Spawn, suspend and help change nothing in the stream.
- A read error on the terminal is modelled as its end of file.
- FlushData: with cooking on, nothing is said about the result of a call in which a write was short, because the result of the carriage return is ignored and its count can hide a shortfall; after a failed write the exact bytes on the line are not claimed either, since the buffer is flushed a second time.
- Relaying from the serial line to the user's screen, and transparent mode of the client, which only mask or copy bytes.
- The tables `yy_accept`, `yy_meta`, `yy_base`, `yy_def`, `yy_nxt` and `yy_chk` are the source's; `yy_ec` is given as the function of its six classes.
- Grow: sizes are unbounded integers, so the branch for a buffer beyond a gigabyte, and a failed allocation, are not modelled.
- flex's `unput`, `input` and start conditions, and scanning from memory: not used.
- ReadConfigurationFile: stops at an empty word taken for a header or a name, because the source then looks at the byte before it; what it does with that byte is not modelled.
- Aliasing between the token a header is cut from and `defaulthost`: values stand for both.
- Reboot, and requests rejected by TCP wrappers, are not part of the runs.
- The child's side of MakeConnection (accepting the TCP connection and running the program).
- The linked list of connections is a sequence that the methods reassign; list cells are not modelled.
- GetTCPConnection: stops in front of a reply without candidates, by whose number the source divides, and when stealing in front of one with unreadable times, where it acts on uninitialised numbers.
- ClientProbe.MakeConnection: naming a server, the default class and a second connection are not modelled; what lies behind a reply, up to 999 records from its details on, counts as its memory; a string in old memory that lacks a terminator ends with its field.
- ExecuteCommand: nothing but commands for outlet 48 changes the byte behind the array; cutting the command out of the received bytes (`get_command`), and the answer to the client, are not modelled.
- Taking a second connection (`findSecond`, `grabSecond`) has no clean contract: it walks one reply while testing another.
- The race between a status reply and a later break: the source gives no guarantee beyond the snapshot.
- getservers with a host given on the command line, or without the environment variable, returns at once and is not modelled.
