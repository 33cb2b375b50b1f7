# Chat command layer — a Dafny model

This project models the command layer of a small TCP chat relay written in
C++ (`src/commands.cpp`). It covers:

- the username validator `is_valid_username`;
- the leading-blank trimmer `ltrim_inplace`;
- the length-checked "send all" loop `send_safe`;
- both halves of `unified_command_table`. The server handlers answer `/help`, `/who`, `/whisper`, `/name` and `/ping`. They read and update the `client_names` map (socket descriptor → display name). The client handlers check arguments and enforce the `/ping` cooldown.

Layout, one module per file:

- `optional.dfy` — `Optional.Option`.
- `text.dfy` — `Text`: `IsValidUsername`, the trimmer `LTrim` with its in-place method `LTrimInPlace`, and their lemmas.
- `streams.dfy` — `Streams`: the two `std::istringstream` extractions the handlers use, `is >> word` (`ReadWord`) and `std::getline` (`ReadLine`). A single `good` flag stands for the stream's state: it drops when an extraction reaches the end of the text or extracts nothing, and an extraction from a stream that is not good yields an empty string.
- `transport.dfy` — `Transport`: `send_safe` as a loop (`SendSafe`) and as a function (`Transmit`). The kernel's `send` is an oracle: a finite sequence of replies (a byte count, EINTR, EAGAIN/EWOULDBLOCK, or another error), one consumed per call.
- `server_commands.dfy` — `ServerCommands`: the class `ChatServer`. It holds the map as a sequence of entries in iteration order, plus an outbox. Every `send_safe(fd, text)` a handler makes appends `Message(fd, text)` to the outbox, unless the text is over the length limit, which `send_safe` refuses before any I/O (`Deliverable`).
- `client_commands.dfy` — `ClientCommands`: the client handlers. `ChatClient` holds `last_ping_time`. Time is an integer parameter counted in nanoseconds.
- `command_table.dfy` — `CommandTable`: which command words have a client handler and which also have a server handler.

Constants. `src/commands.cpp` uses three constants that `src/commands.h` does not define, so they are named constants here:

- `MaxUsernameLength` = 32 and `MaxMessageLength` = 1024 are the model's own assumptions.
- `PingCooldownSeconds` = 5 is a placeholder. No proof depends on its value beyond its being a positive constant.

The model follows the code as written:

- `/name` does not check whether another connection already holds the new name (`RenameOntoTakenName`).
- There is no broadcast engine, failure counting, eviction or inbound length cap.
- An unknown command word gets no reply from these handlers.

## Model

| member | source | states |
|---|---|---|
| Text.AllNameChars | src/commands.cpp:22-24 | the scan is true exactly when every character is alphanumeric (C locale), `_` or `-` |
| Text.IsValidUsername | src/commands.cpp:20-25 | false for the empty string and for strings longer than 32; otherwise true exactly when every character is alphanumeric, `_` or `-` |
| Text.LTrim | src/commands.cpp:65-69 | the result is a suffix of the input and does not start with a space or tab |
| Text.LTrimInPlace | src/commands.cpp:65-69 | the find-first-non-blank loop, then erase or clear, yields exactly `LTrim` of the input |
| Text.LTrimIsBlankFreeSuffix | src/commands.cpp:65-69 | the result is a suffix of the input, the part removed is all spaces and tabs, and the result does not start with a space or tab |
| Text.LTrimEmptyIffAllBlank | src/commands.cpp:65-69 | the result is empty exactly when the input consists only of spaces and tabs |
| Text.LTrimKeepsTrimmed | src/commands.cpp:65-69 | an input not starting with a blank is returned unchanged |
| Text.LTrimIdempotent | src/commands.cpp:65-69 | trimming twice equals trimming once |
| Text.LTrimSkipsBlanks | src/commands.cpp:65-69 | blanks added in front of a string do not change the trimmed result |
| Streams.Open | src/commands.cpp:136 | a fresh string stream is good and at position 0 |
| Streams.SkipSpace | src/commands.cpp:137 | returns the first non-whitespace position at or after the start; everything skipped is whitespace |
| Streams.WordEnd | src/commands.cpp:137 | returns the first whitespace position at or after the start; everything before it is non-whitespace |
| Streams.LineEnd | src/commands.cpp:138 | returns the first line feed at or after the start; nothing before it is a line feed |
| Streams.ReadWord | src/commands.cpp:137 | `>>` yields a word with no whitespace. On a stream that is not good it yields nothing and the stream stays not good. When the stream stays good, the word is non-empty and is followed by whitespace |
| Streams.ReadLine | src/commands.cpp:138 | `getline` yields text with no line feed. On a stream that is not good it yields nothing |
| Streams.ReadWordValue | src/commands.cpp:137 | on a good stream, `>>` yields nothing and fails when only whitespace is left; otherwise it yields exactly the text from the first non-whitespace character to the next whitespace or the end |
| Streams.ReadLineValue | src/commands.cpp:138 | on a good stream, `getline` yields nothing and fails at the end of the text; otherwise it yields exactly the text up to the next line feed or the end |
| Streams.ReadWordAt | src/commands.cpp:137 | on whitespace, then a word, then whitespace, `>>` yields exactly that word and the stream stays good |
| Streams.ReadWordToEnd | src/commands.cpp:173 | on whitespace, then a word that runs to the end, `>>` yields exactly that word and sets eofbit |
| Streams.ReadLineAt | src/commands.cpp:138 | on a line ending with a line feed, `getline` yields exactly that line and the stream stays good |
| Streams.ReadLineToEnd | src/commands.cpp:138 | on a non-empty last line with no line feed, `getline` yields exactly that line and the stream stops being good |
| Transport.Accepted | src/commands.cpp:43-44 | the bytes a reply takes never exceed the bytes still left |
| Transport.PumpSendsPrefix | src/commands.cpp:35-46 | for any replies, the chunks passed to `send` spell a prefix of the remaining message; when the loop delivers, they spell all of it |
| Transport.Transmit | src/commands.cpp:28-47 | the result is "too long" exactly when the message is longer than 1024, and then no chunk was sent |
| Transport.TransmitSpec | src/commands.cpp:28-47 | `send_safe` refuses exactly the messages longer than 1024 and then sends nothing; on success the chunks concatenate to the message |
| Transport.SendSafe | src/commands.cpp:28-47 | the loop agrees with `Transmit`: too long exactly when longer than 1024, nothing sent then, chunks spell the message on success. `left` starts at the message length, never increases, and is 0 on success |
| ServerCommands.Deliverable | src/commands.cpp:29-32 | a handler's `send_safe` call puts at most one message on the wire, and puts none exactly when the text is longer than 1024 |
| ServerCommands.DeliverableMatchesSendSafe | src/commands.cpp:29-32 | the outbox abstraction drops a message exactly when `send_safe` returns "too long" |
| ServerCommands.IndexOfFd | src/commands.cpp:181 | finds the entry of a descriptor when it has one, and reports none exactly when it has none |
| ServerCommands.WithDefault | src/commands.cpp:146 | `operator[]` on a missing descriptor adds it with an empty name; a descriptor already present leaves the map unchanged; a missing one is appended with an empty name; every other descriptor's name reads the same |
| ServerCommands.Assign | src/commands.cpp:182 | after `client_names[fd] = n`, fd maps to n; the descriptor set gains fd only, and an existing entry is overwritten in place rather than added |
| ServerCommands.AssignSpec | src/commands.cpp:182 | after `client_names[fd] = n`: fd maps to n, every other descriptor keeps its name, and the descriptors stay distinct, with fd added |
| ServerCommands.AssignAfterDefault | src/commands.cpp:181-182 | reading the old name through `operator[]` before assigning does not change the final map |
| ServerCommands.RenameOntoTakenName | src/commands.cpp:175-182 | no uniqueness check: renaming onto a name another descriptor holds leaves both with that name |
| ServerCommands.RosterSplit | src/commands.cpp:108-112 | the roster is one `"  " + name + "\n"` line per entry, in iteration order |
| ServerCommands.RosterLineCount | src/commands.cpp:108-112 | when no name contains a line feed, the roster has exactly as many lines as there are entries |
| ServerCommands.FindByName | src/commands.cpp:142-143 | finds the first entry, in iteration order, whose name equals the target; reports none exactly when no entry has that name |
| ServerCommands.ParseWhisper | src/commands.cpp:136-139 | the target is one word with no whitespace; the message has no line feed and does not start with a space or tab |
| ServerCommands.ParseName | src/commands.cpp:172-173 | the new name read is one word with no whitespace |
| ServerCommands.Notices | src/commands.cpp:184-187 | at most one notice per entry, each carrying the notice text and none addressed to the sender |
| ServerCommands.NoticesSpec | src/commands.cpp:184-187 | every notice carries the notice text and goes to a registered descriptor other than the sender. Every other descriptor gets exactly one. An oversized notice goes to no one |
| ServerCommands.ChatServer.Post | src/commands.cpp:94 | `send_safe(fd, text)` appends the deliverable message to the outbox |
| ServerCommands.ChatServer.Subscript | src/commands.cpp:146 | `client_names[fd]` returns the name, or "" after inserting an empty entry for a missing descriptor |
| ServerCommands.ChatServer.Help | src/commands.cpp:93-95 | the help text goes to the requester only; the map is unchanged |
| ServerCommands.ChatServer.Ping | src/commands.cpp:222-224 | "Server: pong\n" goes to the requester only; the map is unchanged |
| ServerCommands.ChatServer.Who | src/commands.cpp:106-114 | "Connected users:\n" plus the roster goes to the requester only (if within 1024); the map is unchanged |
| ServerCommands.ChatServer.Whisper | src/commands.cpp:135-151 | If an entry's name equals the second word, `"(whisper from " + sender + "): " + trimmed rest + "\n"` goes to the first such entry only. Otherwise "User not found.\n" goes to the sender only. The map changes only when `operator[]` inserts a missing sender |
| ServerCommands.ChatServer.Name | src/commands.cpp:171-188 | An invalid name sends "Invalid username.\n" to the sender and changes nothing. A valid name overwrites the sender's entry with no uniqueness check. The notice `old + " changed name to " + new + "\n"` then goes to every other entry, never to the sender |
| ServerCommands.ChatServer.NotifyOthers | src/commands.cpp:185-187 | the loop over the map hands the notice to every entry except the sender, in order |
| ClientCommands.TruncDiv | src/commands.cpp:209 | division truncating toward zero: the quotient times the divisor brackets a non-negative dividend, and, for a negative one, the quotient is the one closer to zero |
| ClientCommands.CooldownInTicks | src/commands.cpp:209-210 | truncating the elapsed time to whole seconds does not change the comparison with the cooldown |
| ClientCommands.PingAllowed | src/commands.cpp:209-211 | the whole-second cooldown test passes exactly when at least cooldown × ticks-per-second ticks have passed |
| ClientCommands.ChatClient.constructor | src/commands.cpp:61-62 | `last_ping_time` starts one cooldown before start-up, so the first ping is allowed |
| ClientCommands.ChatClient.Ping | src/commands.cpp:207-220 | Inside the cooldown: Invalid, nothing sent, timestamp unchanged. Otherwise: the timestamp becomes now, "/ping\n" is sent, and the result is Continue exactly when the send delivers. Never Quit |
| ClientCommands.RunLocal | src/commands.cpp:76-91 | /quit yields Quit; /help and /clear yield Continue; none is ever Invalid |
| ClientCommands.Who | src/commands.cpp:102-104 | "/who\n" is sent; Continue exactly when the send delivers, otherwise Invalid, never Quit |
| ClientCommands.ReadWhisperArgs | src/commands.cpp:122-124 | the user is a word without whitespace; the message has no line feed and does not start with a blank |
| ClientCommands.Whisper | src/commands.cpp:121-133 | An empty user or empty trimmed message gives Invalid and sends nothing. Otherwise `"/whisper " + user + " " + message + "\n"` is sent, and Continue exactly when delivered. The server parses the sent line back to the same user and message. Never Quit |
| ClientCommands.TrimmedLineHasNoLineFeed | src/commands.cpp:123-124 | trimming a line that has no line feed leaves none |
| ClientCommands.ParseWhisperLine | src/commands.cpp:136-139 | the server parses `"/whisper " + user + " " + message`, with or without a trailing line feed, to the user and the trimmed message |
| ClientCommands.WhisperRoundTrip | src/commands.cpp:131-139 | the server's `>> cmd >> target; getline; ltrim` recovers the user and the message from the line the client sends |
| ClientCommands.Name | src/commands.cpp:158-168 | as written: an invalid name gives Invalid and sends nothing. A valid one sends "/name " + name with no line feed, and the result is always Continue, never Quit |
| ClientCommands.NameIgnoresFailedSend | src/commands.cpp:167-168 | a valid name whose send fails on the first call; `Name` still reports Continue |
| ClientCommands.NameIntended | src/commands.cpp:158-168 | corrected: sends "/name " + name + "\n", and Continue exactly when delivered, in which case every byte went out. The server reads the same name back. Never Quit |
| ClientCommands.NameIsOneWord | src/commands.cpp:20-25 | a valid name is non-empty and has no whitespace, so `>>` reads it as one word |
| ClientCommands.NameRoundTrip | src/commands.cpp:167-173 | the server's `>> cmd >> new_name` recovers a valid name from the client's line, with or without a trailing line feed |
| CommandTable.Lookup | src/commands.cpp:71-227 | exactly the seven command words have a row; only /quit and /clear have no server handler |

## Findings

| source | as written | input that shows it | evidently intended | confidence | as-written member | corrected member |
|---|---|---|---|---|---|---|
| src/commands.cpp:167-168 | `send_safe(sock, std::string("/name ") + new_name) + "\n"` adds the bool result to the address of a string literal, so the condition is always true. The line also goes out without a line feed | `/name bob` while the first `send` fails: `send_safe` returns false, yet the handler returns Continue | `send_safe(sock, "/name " + new_name + "\n") ? Continue : Invalid` | high, from reading the code; not executed | ClientCommands.Name, ClientCommands.NameIgnoresFailedSend | ClientCommands.NameIntended |

## Left out

- `src/client.cpp`, `src/server.cpp` and `src/commands.h` are not part of this model:
  - `src/client.cpp` and `src/server.cpp` are socket set-up, a receive thread and an accept loop. The server's `handle_client` and `broadcast` are empty.
  - `src/commands.h` declares an older interface that the implementation does not use.
- Nothing in the shown code dispatches a command line to the table. `CommandTable.Lookup` states the table's contents. The handlers are modelled one by one, and an unknown command word has no behaviour to model.
- Locking. The `std::mutex` / `lock_guard` calls are left out, and each handler is treated as one atomic step.
- Console output is not modelled: `std::cout`, `std::cerr`, `perror`, the usage and rate-limit messages, and the `/clear` escape sequence. The client `/help`, `/quit` and `/clear` are reduced to their results.
- Real socket behaviour. `send` is a finite sequence of replies.
  - When the replies run out while bytes are still left, `send_safe` ends as `Stalled`. The source would keep looping instead: it blocks in `send`, spins on EINTR or EAGAIN, or spins forever on a reply of 0 bytes.
  - A reply counting more bytes than were offered is read as the whole remainder, since `send` never reports more than it was asked to write.
- Server handlers do not model socket failures. Their outbox records each message `send_safe` accepted for sending. Failures after the length check are visible only through `Transport.SendSafe`.
- Iteration order of `std::unordered_map` is unspecified in C++. The model fixes it as the entry sequence, and a new key is appended at the end.
- Iterator invalidation. In `/whisper`, the iterator returned by `find_if` is used after `client_names[client_fd]` may have inserted the sender, which can trigger a rehash. The model takes the descriptor of the entry found.
- Each `char` models one byte. The length checks count bytes (`s.size()`, `msg.size()`), so a name or message in a multi-byte encoding is not modelled.
- Values of the three constants. `PingCooldownSeconds` is a placeholder, because the shown header does not define it.
