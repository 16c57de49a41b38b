# Verified models of the hard parts of four IRC servers

The repository holds several IRC servers that share a protocol and little else. This project models the parts of them
that are hard to get right and proves what those parts promise. The state that a server updates in place is a class with
the server's own fields; each method is proved against a specification on values, and the theorems, which speak of all
inputs, all runs or all reachable states, are about that specification.

| part | server | modules |
|---|---|---|
| wildcard masks, by pointers and by table | boris, alexandre_hallaine | `CString`, `Mask`, `Greedy`, `Table` |
| messages over a stream cut anywhere | ann, alexandre_hallaine | `CrLf`, `AnnClient`, `AnnDelivery`, `UserSession` |
| registration and deferred dispatch | alexandre_hallaine | `IrcCommand`, `Dispatch`, `Registration`, `Names`, `Welcome`, `UserSession`, `User` |
| user modes | alexandre_hallaine | `UserMode` |
| channels, their members and the client's own list | mariia | `Channel`, `Targets`, `Net`, `NetInvariant`, `NetTheorems`, `NetAuthority`, `NetExact`, `Server` |
| the MODE broadcast as a replay log | mariia | `Tokens`, `ModeLog`, `ModeExact`, `ModeWire` |
| parsing a message | boris | `Message` |
| deferred removal of clients and channels | ann | `AnnRooms`, `AnnServer` |

The main results:

- **Masks.** Both matchers decide the wildcard relation of section 2.5 of RFC 2812 (without the escape), defined by
  dividing the text into pieces. One remembered star is enough. They differ exactly on the empty text under masks of
  stars (`Greedy.IsStringFitsMask`, `Table.Strmatch`, `Table.MatchersAgree`).
- **Delivery.** The first 510 characters of each message come out once each and in order, whatever the portions in which
  they were sent and read (`AnnDelivery.GotBeginnings`). Because of the rule for lines from `nc`, that holds in every run
  if and only if none of them but the very first is an LF (`AnnDelivery.DeliveredExactly`).
- **Dispatch.** It ends; it loses, repeats and reorders nothing within a name; it leaves nothing that may run; and
  nobody gets past a configured password without giving it (`Dispatch`, `UserSession`). Where it ends is stated exactly, for
  every status and queue (`Registration.RegistrationExact`), and so is which names the user then has
  (`Names.SettleNames`), down to the bytes a client sends (`Welcome.OnlineAsTyped`).
- **User modes.** MODE is last-writer-wins on a set of letters, stated on the characters of the request, and in every run operators come only from the right
  credentials or from other operators (`UserMode.RequestDecides`, `UserMode.OperatorsPromoted`).
- **Channels.** The invariant of mariia's channels holds in every reachable state, so that its tests with `==` for a
  full channel and for nine channels are sound. Whoever is no operator of a channel changes nothing
  in it for others (`NetAuthority.Authority`), and the outcome of every request is stated for every channel and client
  (`NetExact`, `ModeExact`).
- **A defect.** A channel is created under a lower-case name, but its creator's own list keeps the name as it was typed
  (project/mariia/sources/cmd/processJoin.cpp:58), and it stays there when the creator leaves. The list is right exactly while
  all names on it are in lower case (`NetTheorems.IndexExact`), and for each name that is not there is a run in which
  a QUIT is announced to a stranger (`NetTheorems.StaleNameIsHeard`).
- **MODE.** The broadcast is a log that can be replayed, survives the wire and has a normal form
  (`ModeLog.Replay`, `ModeWire.ReplayOverTheWire`, `NetTheorems.ReachableReplay`).
- **Parsing.** Parsing undoes printing, and every message has a canonical form that parses to the same
  (`Message.RoundTrip`, `Message.CanonicalAgain`).
- **The sweep.** From every reachable state it removes exactly the finished clients and the emptied channels
  (`AnnRooms.SweepExact`, `AnnServer.SweepUnused`).

In this directory, `dafny verify dfyconfig.toml` covers the whole project.

## How to read the modules

A class has the fields of the object it stands for. Ghost members (`State`, `Acc`, the field `net`) give its state as a
value, and the contract of a method says which step on values it takes. `Net.Step`, `UserSession.Handle`,
`AnnDelivery.Step`, `UserMode.Step` and `AnnRooms.Next` are those steps; `Run`, `Life` and `IsRun` are whole runs.
`Lists`, `Strings`, `Sets` and `Option` hold what several servers share.

Where a server walks through an ordered map or set and the order matters (`findClient` by nickname), the method visits
the least element first; where it does not, the method picks any.

What the surroundings decide is a parameter: the bytes of a `recv`, the number of bytes a `send` took, a fresh descriptor
from `accept`, and in `Dispatch.World` the configured password and whether the checks of NICK and KILL that look at other
users succeed. The password is a constant there because nothing changes the configuration after the start (the REHASH
command does nothing).

## Model

| member | source | states |
|---|---|---|
| CString.CStr | project/boris/srcs/Kernel.cpp:132-133 | the part of a string that the matcher can see through `c_str()`: a prefix without NUL that ends where the string ends or at its first NUL |
| Mask.SuffixIsMatches | project/boris/srcs/Kernel.cpp:131-156 | recursion on first characters decides the reference relation: some division of the text into consecutive pieces gives every `*` any piece, every `?` one character and every other character itself |
| Mask.SuffixSplit | project/boris/srcs/Kernel.cpp:131-156 | a star may take any prefix: a mask matches exactly if some prefix fits its first character and the rest matches the rest |
| Mask.SegmentTakes | project/boris/srcs/Kernel.cpp:131-156 | a star-free segment consumes exactly one character of text for each of its own; the half of the exchange argument about the text between two stars |
| Mask.StarSkips | project/boris/srcs/Kernel.cpp:131-156 | a star absorbs whatever precedes a match of what follows it; the other half of the exchange argument |
| Mask.Append | project/alexandre_hallaine/src/Utils/Utils.cpp:49-76 | matching a concatenated mask is matching its two parts on the two sides of some cut, both directions |
| Mask.LastStep | project/alexandre_hallaine/src/Utils/Utils.cpp:66-71 | the recursion over last characters, which the table uses, decides the same relation as the recursion over first characters, which the pointers use |
| Greedy.ForgetStar | project/boris/srcs/Kernel.cpp:137-140 | exchange argument: when the second star is reached, the answer no longer depends on the first star, so one remembered star loses no match |
| Greedy.TextExhausted | project/boris/srcs/Kernel.cpp:141-143 | at the end of the text the whole remaining search, backtracking included, is decided by whether the mask is at its end |
| Greedy.AdvanceStar | project/boris/srcs/Kernel.cpp:148-151 | a failed attempt rules out exactly one start for the remembered star: trying the next start keeps the answer |
| Greedy.IsStringFitsMask | project/boris/srcs/Kernel.cpp:131-156 | sound and complete for all strings: true exactly if the reference relation holds of the two C strings; terminates by mask left after the last star, text left after its start, text left |
| Table.Recurrence | project/alexandre_hallaine/src/Utils/Utils.cpp:60-72 | the cell rule of the table holds of the relation between every mask prefix and every text prefix, first row included |
| Table.FillRow | project/alexandre_hallaine/src/Utils/Utils.cpp:65-72 | the inner loop makes one more row say which mask prefix matches which text prefix |
| Table.Strmatch | project/alexandre_hallaine/src/Utils/Utils.cpp:49-76 | every cell is the relation between its prefixes, so for non-empty arguments the answer is the reference relation; an empty argument is refused |
| Table.EmptyText | project/alexandre_hallaine/src/Utils/Utils.cpp:49-76 | the empty text matches exactly the masks of stars |
| Table.MatchersAgree | project/alexandre_hallaine/src/Utils/Utils.cpp:49-76 | on every pair of strings as C reads them, the two matchers give the same answer exactly if the text is not empty or the mask holds something other than stars |
| Table.MatchersOnPlainStrings | project/alexandre_hallaine/src/Utils/Utils.cpp:49-76 | on strings without NUL that is a statement about the two arguments themselves |
| Table.NulTellsApart | project/boris/srcs/Kernel.cpp:131-156 | with a NUL they need not agree: the table compares what stands behind it, the pointers do not |
| CrLf.TakeApartReads | ann/srcs/utils.cpp:100-111 | cutting a stream at each CR LF loses nothing: the frames of the pieces and the left-over are the stream, and none of them hides a CR LF |
| CrLf.OneReading | ann/srcs/utils.cpp:100-111 | there is only one way to read a stream as CR LF free pieces with a CR LF free left-over |
| CrLf.ReadOn | project/alexandre_hallaine/src/User/User.cpp:152-175 | carrying the left-over across a break in the stream, even between CR and LF, gives the pieces of the whole stream |
| AnnDelivery.PrepareResp | ann/srcs/utils.cpp:150-156 | queues the message, or its first 510 characters, and CR LF behind what is waiting |
| AnnDelivery.SendPreparedResps | ann/srcs/utils.cpp:183-195 | what went out followed by what is still waiting is what was waiting; after a failure nothing is waiting any more |
| AnnDelivery.SplitBufToCmds | ann/srcs/utils.cpp:93-111 | returns the non-empty pieces of the stream and keeps the left-over, after the rule for lines typed into `nc`; an empty buffer changes nothing |
| AnnDelivery.ReceiveBuf | ann/srcs/Server.cpp:129-135 | a successful read continues the stream at the carried left-over |
| AnnDelivery.NeverNc | ann/srcs/utils.cpp:96-99 | a buffer that begins at a message boundary is never mistaken for a line from `nc`, if no message has an LF after its first character |
| AnnDelivery.NcApart | ann/srcs/utils.cpp:96-105 | a line ended by LF alone is read as the message before that LF |
| AnnDelivery.PrefixOfFrames | ann/srcs/utils.cpp:101-111 | taking apart any beginning of the frames gives a beginning of the messages, and the rest are the frames of the others |
| AnnDelivery.RunInStep | ann/srcs/utils.cpp:93-111 | in every interleaving of queueing, partial sends and reads of any size, what is read is a beginning of the messages and left-over, bytes in flight and bytes waiting are exactly the frames of the others |
| AnnDelivery.Delivery | ann/srcs/Server.cpp:118-145 | end to end: the receiver has a beginning of the list of non-empty messages, once each and in order; all of them, with nothing held back, as soon as nothing is waiting or in flight |
| AnnDelivery.GotBeginnings | ann/srcs/utils.cpp:150-156 | at any point of any run of such messages, each message got is the first 510 characters of the corresponding non-empty message handed in |
| AnnDelivery.SentThenWaiting | ann/srcs/utils.cpp:183-195 | at every point of every run, with no assumption on the messages, bytes sent followed by bytes waiting are the concatenation of the frames |
| AnnDelivery.DeliveredExactly | ann/srcs/utils.cpp:93-111 | for every list of messages handed in: every run that leaves nothing waiting or in flight delivers the first 510 characters of each non-empty one, once each and in order, if and only if no message has an LF among its first 510 characters but the very first |
| AnnDelivery.Undelivered | ann/srcs/utils.cpp:96-99 | the run that fails for any other list: it delivers the messages before the first bad one and then stops reading at the LF, where the rule for `nc` takes it for the end of a line |
| AnnDelivery.CrlfNeverGot | ann/srcs/utils.cpp:100-105 | no run at all delivers a message with a CR LF in it |
| Strings.Split | project/alexandre_hallaine/src/Utils/Utils.cpp:23-36 | the pieces hold no delimiter and joined by it give the string again; there is always at least one, so a command always has a prefix |
| Strings.SplitJoined | project/alexandre_hallaine/src/Utils/Utils.cpp:23-36 | splitting undoes joining |
| IrcCommand.ReadsWords | project/alexandre_hallaine/src/User/Command/Command.cpp:6-25 | a line of words, with or without a trailer after the first colon, is read as its first word in upper case, the other words and the trailer |
| Dispatch.PassShrinks | project/alexandre_hallaine/src/User/User.cpp:129-137 | the termination measure of the recursion: a pass that changes the status leaves fewer commands, or as many and the status has moved from REGISTER to ONLINE |
| Dispatch.SelectCounts | project/alexandre_hallaine/src/User/User.cpp:87-123 | a pass splits the queue into what it runs and what it leaves, as multisets |
| Dispatch.Conserves | project/alexandre_hallaine/src/User/User.cpp:80-138 | a whole dispatch loses and repeats no command |
| Dispatch.NothingLeft | project/alexandre_hallaine/src/User/User.cpp:80-138 | when dispatch returns, no queued command is allowed by the status it ended with, and no user with both names is left in REGISTER |
| Dispatch.SettleOnce | project/alexandre_hallaine/src/User/User.cpp:80-138 | dispatch is idempotent: a second call runs nothing |
| Dispatch.SettleInOrder | project/alexandre_hallaine/src/User/User.cpp:88-114 | commands of one name run in arrival order and none overtakes one of its name that still waits, whatever ran before |
| Dispatch.ExecuteMoves | project/alexandre_hallaine/src/User/Command/Connection/PASS.cpp:5-14 | one command enters REGISTER only as PASS with the right password while in PASSWORD, never enters ONLINE, and NICK and USER never move the status |
| Dispatch.ExecuteAllGuarded | project/alexandre_hallaine/src/User/User.cpp:88-115 | the commands of one pass keep the guard: REGISTER and ONLINE only after a right PASS, other commands only in passes entered ONLINE and after it |
| Dispatch.SettleGuarded | project/alexandre_hallaine/src/User/User.cpp:80-138 | a whole dispatch keeps the guard, for any history |
| Registration.CapsTogether | project/alexandre_hallaine/src/User/Command/Connection/CAP.cpp:5-16 | the commands of a CAPLS pass together move on exactly if one of them is `CAP LS` |
| Registration.PassesTogether | project/alexandre_hallaine/src/User/Command/Connection/PASS.cpp:5-14 | the commands of a PASSWORD pass together move on exactly if one of them is right; wrong ones before or after it do not matter |
| Registration.NamesTogether | project/alexandre_hallaine/src/User/Command/Connection/USER.cpp:4-13 | after a REGISTER pass there is a nickname exactly if there was one or some NICK was accepted, and the real name is that of the last USER with three parameters |
| Registration.StatusTogether | project/alexandre_hallaine/src/User/User.cpp:88-115 | what a list of commands makes of the status depends on four kinds of command only: a `CAP LS` asks for the password even of an online user, a right PASS answers that, QUIT and KILL delete |
| Registration.RegistrationExact | project/alexandre_hallaine/src/User/User.cpp:80-138 | from every status and with every queue: a dispatch ends in the first status whose step the queue lacks (a `CAP LS`, a right PASS, both names), in whatever order the commands arrived but for which USER is last; past REGISTER nothing is left waiting, and the commands that move the status decide where it ends |
| Registration.RegistrationInRuns | project/alexandre_hallaine/src/User/User.cpp:139-177 | the same for every read of every run, at any status |
| Registration.StillNew | project/alexandre_hallaine/src/User/Command/Connection/USER.cpp:4-13 | at any point of any run a user still in CAPLS has no names |
| Names.ExecuteNames | project/alexandre_hallaine/src/User/Command/Connection/USER.cpp:4-13 | one command changes the nickname only as an accepted NICK, to its first parameter, and the other names only as a USER with three parameters in REGISTER, to its first parameter and its trailer |
| Names.SettleNames | project/alexandre_hallaine/src/User/User.cpp:80-138 | after a dispatch the nickname is the first parameter of the last accepted NICK that ran in it, username and real name are those of the last USER with three parameters that ran in REGISTER; without one they are the old ones |
| Names.NamesInRuns | project/alexandre_hallaine/src/User/User.cpp:139-177 | the same for each read of every run |
| Welcome.OnlineAsTyped | project/alexandre_hallaine/src/User/User.cpp:139-177 | from the bytes `CAP LS`, PASS, NICK and USER on the wire: with a password configured the client is online under exactly the names it typed if the password is right and the nickname accepted, in REGISTER if only that is not, and in PASSWORD with a wrong password |
| UserSession.Reassembles | project/alexandre_hallaine/src/User/User.cpp:152-175 | the commands queued over all reads are the non-empty pieces of the whole stream, in order, and the buffer is its unfinished end and never holds a CR LF |
| UserSession.ArrivedAre | project/alexandre_hallaine/src/User/User.cpp:159-175 | the k-th command ever queued has the text of the k-th non-empty piece of the stream and the serial k |
| UserSession.PortionsIrrelevant | project/alexandre_hallaine/src/User/User.cpp:152-175 | two runs that bring the same bytes, however cut, queue the same commands and keep the same left-over |
| UserSession.KeptIsSent | project/alexandre_hallaine/src/User/User.cpp:152-154 | the bytes kept are the bytes sent exactly if no portion has a NUL in it |
| UserSession.LifeConserves | project/alexandre_hallaine/src/User/User.cpp:139-177 | over a whole connection every command that arrived has run or waits, none twice |
| UserSession.LifeInOrder | project/alexandre_hallaine/src/User/User.cpp:139-177 | over a whole connection commands of one name run in arrival order |
| UserSession.LifeGuarded | project/alexandre_hallaine/src/User/User.cpp:80-138 | with a non-empty password, in every run a user in REGISTER or ONLINE has given it, a user ONLINE has both names, and commands other than CAP, PASS, NICK and USER ran only in passes entered ONLINE and after the right PASS |
| UserSession.NoPasswordNoGuard | project/alexandre_hallaine/src/Server/Server.cpp:29-31 | the guard holds of a new user exactly if there is a password |
| UserSession.LifeSettled | project/alexandre_hallaine/src/User/User.cpp:176-176 | after every read nothing that may run is waiting |
| UserSession.GoneForGood | project/alexandre_hallaine/src/User/User.cpp:147-151 | once a connection is closed or its user expelled, its account is the old one marked deleted and nothing runs any more |
| UserSession.FailureIgnored | project/alexandre_hallaine/src/User/User.cpp:144-145 | a failed read changes nothing |
| User.User.constructor | project/alexandre_hallaine/src/Server/Server.cpp:29-31 | a new user is in CAPLS, or in REGISTER without a password |
| User.User.Call | project/alexandre_hallaine/src/User/User.cpp:105-106 | the registration commands change the account as the transition function says, on every branch |
| User.User.RunAllowed | project/alexandre_hallaine/src/User/User.cpp:88-115 | runs the allowed commands of the queue once each in arrival order and records them |
| User.User.EraseAll | project/alexandre_hallaine/src/User/User.cpp:117-123 | erasing by address, one at a time, removes the commands that ran and no others, keeping the order |
| User.User.OnePass | project/alexandre_hallaine/src/User/User.cpp:87-127 | both loops and the promotion are one specified pass |
| User.User.Dispatch | project/alexandre_hallaine/src/User/User.cpp:80-138 | the recursive dispatcher ends, with the queue, account and history that the specification says |
| User.User.QueueMessages | project/alexandre_hallaine/src/User/User.cpp:157-175 | the loop over the buffer queues the non-empty pieces and leaves the unfinished end |
| User.User.Receive | project/alexandre_hallaine/src/User/User.cpp:139-177 | one `recv`, failed, closed or with bytes, is one step of the session that the theorems are about |
| User.User.Expel | project/alexandre_hallaine/src/Server/Server.cpp:40-50 | a missed ping, like a KILL from elsewhere, deletes the user |
| User.EraseOne | project/alexandre_hallaine/src/User/User.cpp:118-122 | erasing at the found place removes that command and only it |
| User.MinusIsSelect | project/alexandre_hallaine/src/User/User.cpp:117-123 | the queue without what ran is what the pass was to leave |
| UserMode.CheckToggleMode | project/alexandre_hallaine/src/User/Command/Connection/MODE.cpp:6-12 | on a repeat-free string the result is repeat-free and its letters are the set with the option inserted or removed |
| UserMode.ToggledIsSet | project/alexandre_hallaine/src/User/Command/Connection/MODE.cpp:6-12 | the same of the function that specifies it |
| UserMode.EditModes | project/alexandre_hallaine/src/User/Command/Connection/MODE.cpp:156-177 | refuses exactly the requests with a character outside `+-aiwro`; otherwise the last thing said about each letter decides, with the exceptions for `a`, `o` and `r` spelled out |
| UserMode.ModeUser | project/alexandre_hallaine/src/User/Command/Connection/MODE.cpp:140-181 | who may change whose modes; a refused request changes nothing, any other decides each letter of the target as its last sign says and leaves all other users |
| UserMode.GetUser | project/alexandre_hallaine/src/Server/Server.cpp:148-154 | the first user with that nickname, if there is one |
| UserMode.LastWriterWins | project/alexandre_hallaine/src/User/Command/Connection/MODE.cpp:156-177 | from a repeat-free string: repeat-free again, and a letter is present exactly if its last sign that is not ignored is `+`, or it had none and was present |
| UserMode.RequestDecides | project/alexandre_hallaine/src/User/Command/Connection/MODE.cpp:162-176 | the same from the characters alone: a letter other than `a` is present afterwards exactly if the last sign before its last position is `+` or there is none, leaving out `o`, and `r` after a minus, of a non-operator; without such a position it is as before, and so is `a` |
| UserMode.NoSelfPromotion | project/alexandre_hallaine/src/User/Command/Connection/MODE.cpp:169-174 | without operator rights no request gains `o`, drops `r` or changes `a` |
| UserMode.Oper | project/alexandre_hallaine/src/User/Command/Connection/OPER.cpp:5-21 | only the right credentials add `o`; no other letter changes |
| UserMode.Away | project/alexandre_hallaine/src/User/Command/Optional/AWAY.cpp:4-17 | `a` is present exactly if there was a parameter; no other letter changes |
| UserMode.RunNoRepeats | project/alexandre_hallaine/src/User/User.cpp:220 | in every run of arrivals, OPER, AWAY and MODE every mode string is repeat-free, so that all letters are sets |
| UserMode.OperatorsPromoted | project/alexandre_hallaine/src/User/Command/Connection/OPER.cpp:10-18 | in every run a user becomes operator only by its own OPER with the right credentials or by the MODE of another operator |
| UserMode.NoCredentialsNoOperators | project/alexandre_hallaine/src/User/Command/Connection/MODE.cpp:148-149 | while nobody has given the right credentials, nobody is an operator |
| Tokens.Tokenise | project/mariia/sources/parsingServer.cpp:35-40 | the loop over `>>` collects the words of the line |
| Tokens.MergeTokensToString | project/mariia/sources/utils.cpp:44-56 | single blanks between the words, and one leading colon gone if asked |
| Tokens.WordsOfMerged | project/mariia/sources/utils.cpp:44-56 | merging blank-free words and tokenising again gives back exactly the non-empty ones |
| Tokens.SplitMerged | project/mariia/sources/utils.cpp:44-56 | there is exactly one blank between each two words, so that splitting at each blank gives all of them back |
| Tokens.WordsClean | project/mariia/sources/parsingServer.cpp:35-40 | words of a line are non-empty and without blanks |
| Tokens.UncapitalizeString | project/mariia/sources/utils.cpp:3-9 | every letter in lower case |
| Tokens.IsValidName | project/mariia/sources/utils.cpp:32-42 | exactly the non-empty names without the five forbidden characters |
| Tokens.ParseInt | project/mariia/sources/cmd/processMode.cpp:115-119 | a limit that is read fits a 32-bit int |
| Tokens.ParsesWritten | project/mariia/sources/cmd/processMode.cpp:115-117 | reading undoes writing: a decimal number with anything but a digit after it is read as that number if it fits 32 bits, and refused otherwise |
| Tokens.ParsesNothing | project/mariia/sources/cmd/processMode.cpp:117-117 | without a digit behind an optional sign nothing is read |
| Channel.Channel.constructor | project/mariia/sources/Channel.cpp:4-13 | lower-case name, TOPICSET on, KEYSET on exactly if there is a key |
| Channel.Channel.SetMode | project/mariia/sources/Channel.cpp:77-83 | sets one flag and no other; says whether it was off |
| Channel.Channel.UnsetMode | project/mariia/sources/Channel.cpp:85-91 | clears one flag and no other; says whether it was on |
| Channel.SetBit | project/mariia/sources/Channel.cpp:81-81 | on the mode word: or with a flag adds that flag to the set it stands for |
| Channel.ClearBit | project/mariia/sources/Channel.cpp:89-89 | and with the complement removes it |
| Channel.Channel.AuthMember | project/mariia/sources/Channel.cpp:112-119 | only the right key enters, and entering uses up the invitation |
| Channel.Channel.RemoveMember | project/mariia/sources/Channel.cpp:102-106 | leaves members, operators and invited together |
| ModeLog.FindNick | project/mariia/sources/Server.cpp:347-355 | the client with this nickname in lower case, of several the one with the least descriptor |
| ModeLog.HandleKeeps | project/mariia/sources/cmd/processMode.cpp:77-147 | a mode that is refused leaves no trace that can be observed, and KEYSET stays on exactly while there is a key |
| ModeLog.LoopIsLog | project/mariia/sources/cmd/processMode.cpp:33-62 | the loop does what the operations it counted as applied do, and `changedModes` and `parametersSet` write down exactly those |
| ModeLog.LogIsPerformed | project/mariia/sources/cmd/processMode.cpp:40-62 | running the loop on a written-down list of operations performs that list |
| ModeLog.Replay | project/mariia/sources/cmd/processMode.cpp:33-67 | the broadcast is a replay log: from the same channel it gives the same channel and the same broadcast |
| ModeLog.RefusedLimitLeavesValue | project/mariia/sources/cmd/processMode.cpp:123-125 | the one thing outside the log: `-l` on a channel without a limit is refused yet resets the value, so the replay restores the raw value only if it was -1 already |
| ModeLog.FlagsLastWriter | project/mariia/sources/cmd/processMode.cpp:40-62 | `i` and `t` end up on exactly if the mode string says `+` for them last, or does not say and they were on |
| ModeExact.HandleKey | project/mariia/sources/cmd/processMode.cpp:97-110 | the key changes only by `k`: to an allowed parameter after a plus, to nothing after a minus |
| ModeExact.HandleLimit | project/mariia/sources/cmd/processMode.cpp:112-127 | the limit changes only by `l`: to the number read if that is not below the size, or off |
| ModeExact.HandleOperator | project/mariia/sources/cmd/processMode.cpp:129-147 | an `o` makes the named member an operator or takes that from the named client, and changes it for nobody else |
| ModeExact.ModeRequest | project/mariia/sources/cmd/processMode.cpp:16-68 | a whole MODE request: by an operator, each of the flags, the key, the limit and everybody's operatorship is as the last position of the mode string that says something about it decides, with the parameters paired to letters by position; members, invitations, other channels and clients stay; in every other case nothing changes |
| ModeExact.KeyOpens | project/mariia/sources/cmd/processMode.cpp:97-105 | after `+k` with an allowed key exactly that key lets a client in |
| ModeLog.BroadcastNormal | project/mariia/sources/cmd/processMode.cpp:54-61 | in the broadcast a sign stands only just before a letter and only where it changes |
| ModeWire.WireRoundTrip | project/mariia/sources/cmd/processMode.cpp:63-65 | the broadcast text, split into words, gives the channel, the mode string and exactly the non-empty parameters |
| ModeWire.BroadcastParts | project/mariia/sources/cmd/processMode.cpp:64-64 | at each single blank the broadcast falls into the channel, the mode string and all parameters, empty ones included |
| ModeWire.ReplayOverTheWire | project/mariia/sources/cmd/processMode.cpp:33-67 | the broadcast survives the wire: split into words and performed as a MODE request it gives the same channel and would broadcast the same text |
| NetInvariant.EnterKeeps | project/mariia/sources/cmd/processJoin.cpp:33-51 | letting a client in keeps the invariant; here `==` for a full channel suffices because the limit is never below the size |
| NetInvariant.CreateKeeps | project/mariia/sources/cmd/processJoin.cpp:53-64 | opening a channel keeps the invariant, with the name kept as typed on the own list |
| NetInvariant.LeaveKeeps | project/mariia/sources/Server.cpp:327-333 | leaving, and dropping the emptied channel, keeps the invariant |
| NetInvariant.TurnsGood | project/mariia/sources/cmd/processMode.cpp:40-62 | no mode string breaks a good channel: operators stay members, the key agrees with its flag, a limit never falls below the size |
| NetInvariant.DisconnectExact | project/mariia/sources/Server.cpp:136-161 | after `removeClient` no channel mentions the client; exactly the channels it was alone in are gone; the others have lost it and nothing else |
| NetInvariant.StepKeeps | project/mariia/sources/parsingServer.cpp:107-118 | every request, connection, renaming and disconnection keeps the invariant |
| NetInvariant.Reachable | project/mariia/sources/Server.cpp:136-161 | in every run: unique lower-case names, no empty channel, operators are members, invited are not, only connected clients, KEYSET exactly with a key, at most as many members as the limit, at most nine names on a list |
| NetTheorems.IndexExact | project/mariia/sources/Client.cpp:124-135 | in every reachable state a client's list holds without repeats exactly its channels if and only if all names on it are in lower case |
| NetTheorems.AtMostNine | project/mariia/sources/cmd/processJoin.cpp:20-23 | nobody is ever in more than nine channels, whatever the names: the test `== MAXCHANNELS` suffices |
| NetTheorems.FullExact | project/mariia/sources/cmd/processJoin.cpp:41-44 | in every reachable state the test `==` for a full channel is the test `>=` |
| NetTheorems.QuitHeard | project/mariia/sources/cmd/processQuit.cpp:4-14 | in every reachable state a QUIT reaches everybody who shares a channel; and nobody else exactly if each stale name on the list leads to sharers only |
| NetTheorems.QuitExact | project/mariia/sources/cmd/processQuit.cpp:4-14 | a quitter whose list is in lower case is announced to exactly those who share a channel |
| NetTheorems.LowerRunsAgree | project/mariia/sources/cmd/processJoin.cpp:53-64 | in runs that join under lower-case names every list agrees and every announcement is exact |
| NetTheorems.StaleNameIsHeard | project/mariia/sources/cmd/processJoin.cpp:58-58 | why the condition is needed: for each valid name not in lower case there is a run, from the registration of two clients on, after which the quitter is announced to a stranger |
| NetTheorems.ReachableReplay | project/mariia/sources/cmd/processMode.cpp:16-68 | in every reachable state the broadcast of a MODE line, read back as a MODE line, leads to the same state; without a broadcast nothing has changed |
| NetAuthority.Authority | project/mariia/sources/parsingServer.cpp:107-118 | in every reachable state one request of a client does nothing to a channel of which it is no operator but bring itself in or out: settings, all operators, and everybody else's membership and invitation stay, and the channel goes only if nobody else was in it |
| NetAuthority.KickByOperator | project/mariia/sources/cmd/processKick.cpp:17-33 | KICK by anybody but an operator leaves the channel as it was |
| NetAuthority.InviteByOperator | project/mariia/sources/cmd/processInvite.cpp:14-29 | INVITE by anybody but an operator leaves the channel as it was |
| NetAuthority.ModeByOperator | project/mariia/sources/cmd/processMode.cpp:28-32 | MODE by anybody but an operator leaves the channel as it was |
| NetAuthority.JoinOneLookup | project/mariia/sources/cmd/processJoin.cpp:24-29 | JOIN of one name touches no other channel, lets in exactly who may enter, and makes the creator the one member and operator |
| NetAuthority.LeftLookup | project/mariia/sources/Server.cpp:327-333 | leaving touches no other channel, and drops the channel exactly if nobody else is in it |
| NetAuthority.JoinThenPart | project/mariia/sources/cmd/processPart.cpp:19-31 | PART undoes JOIN under a lower-case name, but for an invitation that has been used up |
| NetAuthority.InvitedOnce | project/mariia/sources/cmd/processInvite.cpp:23-29 | from every state of the invariant: uninvited, JOIN of a closed channel changes nothing; after an operator's INVITE it lets the guest in exactly if the key is right and there is room; after JOIN and PART no JOIN changes anything again |
| NetExact.JoinOneExact | project/mariia/sources/cmd/processJoin.cpp:24-29 | JOIN of one name: refused, nothing changes; admitted, the channel has one more member whose invitation is used up, or is new with the client as its one member and operator, and its name goes on the own list |
| NetExact.JoinListExact | project/mariia/sources/cmd/processJoin.cpp:15-30 | JOIN with any list of names and keys: the client gets into exactly the channels under whose first admitting name it comes while it is in fewer than nine, with the key at that position; nothing else changes, and the own list grows by those names in order |
| NetExact.JoinRequest | project/mariia/sources/cmd/processJoin.cpp:3-31 | a JOIN line is that, for at most ten targets; otherwise nothing changes |
| NetExact.PartListExact | project/mariia/sources/cmd/processPart.cpp:19-31 | PART with any list of names: the client leaves every channel named that it is in, and nothing else changes |
| NetExact.PartRequest | project/mariia/sources/cmd/processPart.cpp:3-32 | a PART line is that, for at most ten targets; otherwise nothing changes |
| NetExact.KickRequest | project/mariia/sources/cmd/processKick.cpp:3-34 | an operator's KICK removes exactly the member that the nickname names, from that channel only, and the channel if it was the last one; every other KICK changes nothing |
| NetExact.InviteRequest | project/mariia/sources/cmd/processInvite.cpp:3-36 | an operator's INVITE to a closed channel adds exactly the guest to the invited; every other one changes nothing of this state |
| NetExact.OtherRequests | project/mariia/sources/parsingServer.cpp:107-118 | QUIT marks the client and nothing else; lines of unregistered clients and other commands change nothing |
| NetExact.ClientRequests | project/mariia/sources/Client.cpp:4-32 | connecting, NICK and registration change one client's entry and nothing else |
| Targets.PiecesAre | project/mariia/sources/utils.cpp:11-30 | the pieces between commas, but for an empty one at the end |
| Targets.TargetsAre | project/mariia/sources/utils.cpp:24-28 | the targets are the pieces, each once, in the order of `std::string` |
| Server.Client.RemoveChannel | project/mariia/sources/Client.cpp:128-135 | erases the first entry of that exact name |
| Server.SplitAtCommas | project/mariia/sources/utils.cpp:11-30 | pieces between commas, none after a last comma |
| Server.SplitUnique | project/mariia/sources/utils.cpp:11-30 | the same pieces sorted and without repeats |
| Server.Server.FindPosition | project/mariia/sources/Server.cpp:307-325 | the first channel of that name in lower case |
| Server.Server.FindClient | project/mariia/sources/Server.cpp:347-355 | the first client of that nickname in lower case |
| Server.Server.AddClient | project/mariia/sources/Server.cpp:131-134 | a new client, nothing else changes; a descriptor in use keeps its client |
| Server.Server.RemoveChannel | project/mariia/sources/Server.cpp:307-315 | erases the channel of that name and no other |
| Server.Server.RemoveClientFromChannel | project/mariia/sources/Server.cpp:327-333 | channel and client list change together |
| Server.Server.JoinExistingChannel | project/mariia/sources/cmd/processJoin.cpp:33-51 | lets in exactly who may enter, on both lists, and changes nothing otherwise |
| Server.Server.CreateAndJoinNewChannel | project/mariia/sources/cmd/processJoin.cpp:53-64 | opens a channel for a valid name only |
| Server.Server.ProcessJoin | project/mariia/sources/cmd/processJoin.cpp:3-31 | the whole request is the specified step, limits on targets and channels included |
| Server.Server.ProcessPart | project/mariia/sources/cmd/processPart.cpp:3-32 | the whole request is the specified step |
| Server.Server.ProcessKick | project/mariia/sources/cmd/processKick.cpp:3-34 | the whole request is the specified step |
| Server.Server.ProcessInvite | project/mariia/sources/cmd/processInvite.cpp:3-36 | the whole request is the specified step |
| Server.Server.HandleModeK | project/mariia/sources/cmd/processMode.cpp:97-110 | `+k` with an allowed key sets it and KEYSET, `-k` empties it and clears KEYSET, anything else changes nothing; the answer says whether it counts |
| Server.Server.HandleModeL | project/mariia/sources/cmd/processMode.cpp:112-127 | `+l` with a number not below the size sets it and LIMITSET, `-l` clears both, anything else changes nothing; the answer says whether it counts |
| Server.Server.HandleModeO | project/mariia/sources/cmd/processMode.cpp:129-147 | `o` adds the named member to the operators or takes the named client from them, nobody else; the answer says whether that was a change |
| Server.Server.ChangeModes | project/mariia/sources/cmd/processMode.cpp:33-62 | the loop with its six variables is the specified run over the mode string |
| Server.Server.ProcessMode | project/mariia/sources/cmd/processMode.cpp:16-68 | the whole request is the specified step, and the broadcast goes to the members exactly if something was applied |
| Server.Server.ProcessCmd | project/mariia/sources/parsingServer.cpp:107-118 | any request is the specified step |
| Server.Server.ProcessLine | project/mariia/sources/parsingServer.cpp:41-45 | a line of a client that is not registered does nothing to channels; of one that is, it is the specified step |
| Server.Server.SetRegistration | project/mariia/sources/parsingServer.cpp:139-141 | registration takes a nickname and changes nothing else |
| Server.Server.ProcessQuit | project/mariia/sources/cmd/processQuit.cpp:3-31 | the recipients are gathered from the own list, the quitter not among them |
| Server.Server.RemoveClient | project/mariia/sources/Server.cpp:136-161 | erasing while walking visits every channel: the specified disconnection |
| Server.Server.EraseFromChannels | project/mariia/sources/Server.cpp:137-146 | the loop over the channels leaves exactly those with other members, in their order |
| Message.ACommand.GetPrefix | project/boris/srcs/commands/ACommand.cpp:7-21 | takes off a first word that starts with a colon |
| Message.ACommand.CropSpaces | project/boris/srcs/commands/ACommand.cpp:23-30 | takes off leading spaces |
| Message.ACommand.GetArg | project/boris/srcs/commands/ACommand.cpp:32-49 | moves one argument from the message to the list and makes progress |
| Message.ACommand.ParseMessage | project/boris/srcs/commands/ACommand.cpp:51-59 | ends, with the prefix and the arguments of the message and nothing left of it |
| Message.ACommand.UpdateCommand | project/boris/srcs/commands/ACommand.cpp:66-74 | forgets the last message first; stores type and client |
| Message.RoundTrip | project/boris/srcs/commands/ACommand.cpp:7-59 | parsing undoes printing, with any runs of spaces, an optional prefix and an optional trailing argument |
| Message.ArgsShape | project/boris/srcs/commands/ACommand.cpp:32-49 | whatever the message, all arguments but the last are non-empty, without spaces and without a leading colon |
| Message.CanonicalAgain | project/boris/srcs/commands/ACommand.cpp:51-59 | every message, printed canonically and parsed again, gives the same prefix and arguments |
| Message.GetType | project/boris/srcs/commands/CommandProcessor.cpp:59-78 | the position of the command word among the names, or one past them exactly if it is none |
| Message.TypeIsFirstArg | project/boris/srcs/commands/CommandProcessor.cpp:59-78 | a recognised name is the first argument; and the first argument is recognised exactly if it is a name, the message does not start with a space and the argument is not a trailing one |
| AnnRooms.SweptOnce | ann/srcs/utils.cpp:255-262 | expulsions from a channel compose, the election of an admin included |
| AnnRooms.SweepExact | ann/srcs/utils.cpp:264-306 | after both sweeps: marked only with unsent output, exactly the finished clients gone and in no channel, polls are listener and clients, no empty channel, exactly the channels without remaining members gone, an admin in every channel if anyone was removed |
| AnnRooms.NickKeeps | ann/srcs/Commands.cpp:73-85 | NICK keeps non-empty nicknames apart up to case |
| AnnRooms.JoinedKeeps | ann/srcs/Commands.cpp:195-212 | JOIN keeps names apart, admins members, and members named and connected |
| AnnRooms.JoinedExact | ann/srcs/Commands.cpp:193-212 | who gets in where by one name of JOIN, and that no other channel and no other client changes |
| AnnRooms.NextKeeps | ann/srcs/Server.cpp:81-103 | every step keeps the invariant the sweep relies on |
| AnnRooms.RunKeeps | ann/srcs/Server.cpp:81-103 | the invariant holds in every state of every run |
| AnnServer.AnnServer.GetCli | ann/srcs/utils.cpp:214-219 | a client of that nickname up to case, if there is one |
| AnnServer.AnnServer.GetCh | ann/srcs/utils.cpp:207-212 | a channel of that name up to case, if there is one |
| AnnServer.AnnServer.GetCliOnCh | ann/srcs/utils.cpp:221-228 | a member of that nickname up to case, if there is one; none of an unknown channel |
| AnnServer.AnnServer.GetAdmOnCh | ann/srcs/utils.cpp:234-241 | an admin of that nickname up to case, if there is one; none of an unknown channel |
| AnnServer.AnnServer.AddNewClient | ann/srcs/Server.cpp:106-116 | client and poll entry appear together |
| AnnServer.AnnServer.ExecNick | ann/srcs/Commands.cpp:73-85 | changes one nickname if it is well-formed and free, the own one counting as taken; nothing otherwise |
| AnnServer.AnnServer.ExecJoinOne | ann/srcs/Commands.cpp:193-212 | one name of JOIN: nothing for a member; a new channel with its admin; or one more member if key, limit and invitation allow, the invitation used up |
| AnnServer.AnnServer.MayJoin | ann/srcs/Commands.cpp:203-209 | the chain of refusals admits exactly with the right key, room, and an invitation where one is needed |
| AnnServer.AnnServer.ExecModeO | ann/srcs/Commands.cpp:381-404 | the admins of that channel are the old ones with or without exactly the named member; nothing changes if the nickname names no member |
| AnnServer.AnnServer.EraseCliFromCh | ann/srcs/utils.cpp:255-262 | the client and nobody else leaves that channel and no other, and a channel left without an admin gets a member as one |
| AnnServer.AnnServer.EraseUnusedClis | ann/srcs/utils.cpp:275-306 | the loop over the marks is the specified sweep of clients, channels, polls and marks |
| AnnServer.AnnServer.EraseUnusedChs | ann/srcs/utils.cpp:264-273 | exactly the empty channels go |
| AnnServer.AnnServer.SweepUnused | ann/srcs/Server.cpp:84-85 | the two sweeps together are the Sweep step of a run and keep its invariant |

## Left out

- AnnDelivery.Delivery: is about runs without a failing `send`, after which everything that waits is lost (AnnDelivery.SendPreparedResps), and about messages without a late LF, which by AnnDelivery.DeliveredExactly is the exact condition.
- AnnDelivery.SendPreparedResps: leaves out the switch of the poll event.
- Table.MatchersAgree: compares the matchers on strings as C reads them; Table.NulTellsApart shows why.
- Registration.RegistrationExact: takes the nicknames that are accepted as given by the surroundings.
- Welcome.OnlineAsTyped: is about a form sent in one portion; RegistrationInRuns and NamesInRuns say what each read of any other run does.
- UserSession.LifeGuarded: is about servers with a password; without one it is false of every new user, by UserSession.NoPasswordNoGuard.
- User.User.Call: a CAP without parameters reads past the end of its parameter list in the source; here it has no effect. Commands that do not touch registration have no effect on the account, and what else they do is not modelled.
- UserMode.ModeUser: models no channel modes (`MODE_channel`, `check_setmode`), and the letters the server is configured with as a constant. In UserMode.Step a MODE names its target directly.
- NetTheorems.IndexExact: the agreement holds if and only if the names are in lower case, and not in every run; this is the code, see NetTheorems.StaleNameIsHeard.
- ModeLog.Replay: equates channels up to the value of a limit that is off, which no request can see; the exception is ModeLog.RefusedLimitLeavesValue.
- Channel.Channel.SetMode: the mode word has 8 bits here and the width of an `unsigned int` in the source; only the four low bits are ever set.
- Tokens.ParseInt: follows `>>` into an `int` for decimal numbers; the value left behind by a failed read is never used and is not modelled.
- Server.Server.RemoveClient: leaves out `pollFds` and the map `users`.
- Server.Server.RenameClient: stands for every successful change of a nickname at any time, so that the theorems do not rest on nicknames being unique; the checks of NICK are left out.
- Server.Server.SetRegistration: may happen at any time to a client with a nickname; the checks on password, username and uniqueness are left out.
- Server.Server.ProcessJoin: keys are paired with the sorted list of names, as in the source, which need not be the pairing that was typed.
- Server.Server.ProcessMode: a MODE without a mode string, and MODE on a nickname, change nothing in the modelled state.
- AnnServer.AnnServer.ExecJoinOne: a name that differs from a known one only in case makes the source follow a null pointer; that case is excluded, as in AnnServer.AnnServer.GetCliOnCh and AnnServer.AnnServer.GetAdmOnCh.
- AnnServer.AnnServer.ExecModeO: leaves out the options i, t, k and l, which a run may change at any time (the event Configure), and the check that the author is an admin; a run may contain it at any time.
- AnnServer.AnnServer.EraseCliFromCh: the source elects the first member by address; here it is any member. Channels are values in a map, not shared objects.
- Sockets, poll, accept, signals, clocks, files, the message of the day and the console: only what they feed in is modelled.
- Reply texts and numerics, and commands that only format (WHO, WHOIS, LIST, NAMES, ADMIN and similar).
- mariia: line framing in `parsBuffer`, requeueing in `sendData`, topics, away messages and user modes.
- ann: `splitCmdToArgs`, PART and KICK of several channels, the checks of INVITE, private messages.
- alexandre_hallaine: channels, KICK, `JOIN 0`, and the replies after registration.
- boris's channels and the servers of AhmedFatir and General_server: they do the same with less structure, and would add easier members only.
