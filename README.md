# PaintBot core, modelled in Dafny

PaintBot is a Discord bot. It announces new uploads of monitored YouTube
channels, and Twitch streams going live, in the Discord channels configured
for each source. This project models two parts of it.

**The YouTube push-notification handler** (`youtube.go`, module `YouTube`).
The hub's push notification is handled in five steps:

1. If the request carries a `hub.challenge`, the handler echoes it back.
2. Otherwise it answers 204 and looks up the channel of the first feed entry (`feed.Entries[0]`; the feed's order is taken as given).
3. It ignores a video that is more than 24 hours old.
4. It ignores a video whose ID is already in the channel's seen list.
5. It announces every feed entry to every Discord destination of the channel. After announcing each entry it appends the first entry's video ID to the seen list, so that ID is appended once per entry.

The handler is a method that updates a `StreamInfo` object in place
(`Streams.StreamInfo`, after `types.go`). It is proved against the pure
function `YouTube.Handle`, and the lemmas about the handler are stated on
that function: message layout, growth of the seen list, no re-announcement on
replay, and the exact freshness boundary. The subscription topic URL is
modelled as well.

**The older text-file revision of the bot** (`main.go`, module `LegacyBot`). It covers:

- the `cfg.txt` line format written by `writeConfig` and read back by `loadConfig` into five record slots;
- the `secrets.txt` split on CRLF in `getSecrets`;
- the chat-command dispatcher `commandHandler`;
- the token-regeneration decision of `validateToken`.

The package-level state of `main.go` is the class `LegacyBot.Bot`. It holds
the slot array, the config file's contents, the bot's user ID and the token.

The Go library behaviour the core relies on is modelled in module `GoStrings`:

- `strings.Split` with a non-empty separator (leftmost, non-overlapping matches);
- `strings.Join`, which the source does not call, used only to state what `Split` takes apart;
- `bufio.Scanner` with `ScanLines`: lines end at `\n`, one trailing `\r` is dropped, and there is no empty final token.

The file system, the clock and Discord are parameters or results:

- The config file is an `Option<string>`; `None` means it does not exist. Whether `os.OpenFile` fails when `writeConfig` opens it is a boolean input.
- The current instant and a feed entry's publication instant are integers counting seconds.
- The channel `findChannel` returns is a nullable `StreamInfo`.
- The Discord calls made are returned as a sequence.

The handler announces every feed entry, not only the first one, and after each
entry appends the first entry's video ID to the seen list. It does all of its work
before it returns.

## Model

| member | source | states |
|---|---|---|
| Streams.StreamInfo.constructor | types.go:87-103 | a stream entry holds exactly the name, user ID, destinations, platform tag and seen list it is built with |
| YouTube.TopicUrl | youtube.go:19 | the topic is the feed prefix followed by the channel's ID, and the ID can be read back from behind the prefix |
| YouTube.TopicUrlInjective | youtube.go:19 | distinct channels subscribe to distinct topics |
| YouTube.PostsFor | youtube.go:90-92 | one message per destination, in destination order, each carrying "author has posted a new video: link" |
| YouTube.Repeat | youtube.go:89-94 | the appended IDs are exactly `n` copies of the first entry's video ID |
| YouTube.Handle | youtube.go:49-98 | a challenge is echoed and changes nothing; otherwise the reply is 204; an unmonitored channel, a video more than 24 hours old, or a seen video sends nothing and keeps the seen list; on the accepting path every entry goes to every destination and the seen list grows by one copy of the first entry's video ID per entry |
| YouTube.Announcement | youtube.go:91 | the announcement is the entry's author, then " has posted a new video: ", then its link |
| YouTube.TooOld | youtube.go:74 | a video is too old exactly when more than 24 hours (86400 seconds) have passed since it was published |
| YouTube.FanOut | youtube.go:89-92 | the nested loops send entries × destinations messages |
| YouTube.FanOutAt | youtube.go:89-92 | the message at position `i` times the destination count plus `j` announces entry `i` to destination `j` |
| YouTube.SeenListGrowth | youtube.go:79-94 | the old seen list is always a prefix of the new one; when the handler announces, the list grows by exactly one ID per entry, each the first entry's video ID |
| YouTube.ReplayIsNoOp | youtube.go:79-84 | after an announced notification, the same feed delivered again, at any time and with any challenge, sends nothing and leaves the seen list unchanged |
| YouTube.DayOldVideoIsAnnounced | youtube.go:74-77 | the freshness test is strict: a video exactly 24 hours old is announced, one a second older is not |
| YouTube.HandleYoutubeNotification | youtube.go:49-98 | the reply, the messages sent and the stream entry's new seen list are those of `Handle` for the entry `findChannel` returned; a missing entry gives the reply alone; the entry's other fields do not change |
| YouTube.AnnounceAll | youtube.go:89-94 | the nested announcement loop sends `FanOut` of the entries and appends the first entry's video ID after each entry, touching nothing else |
| YouTube.PostEntry | youtube.go:90-92 | the inner loop sends one entry to each destination in order |
| GoStrings.IndexOf | main.go:131 | the position `strings.Split` finds, if any, leaves room for the whole separator within the text |
| GoStrings.Split | main.go:131 | `strings.Split` with a non-empty separator always yields at least one piece |
| GoStrings.ScanLines | main.go:186-189 | no line the scanner yields contains a newline |
| GoStrings.IndexOfLeftmost | main.go:118 | the separator is found at the reported position and at no earlier one, and not at all when nothing is reported |
| GoStrings.SplitJoin | main.go:131 | joining pieces in which the separator's first character does not occur, then splitting, gives the pieces back |
| GoStrings.JoinSplit | main.go:131 | joining the pieces of any text with the separator gives the text back |
| GoStrings.SplitOnChar | main.go:204 | splitting on a single character gives one piece more than the character's occurrences, and no piece contains it |
| GoStrings.JoinedPrefix | main.go:204-209 | the first `n` pieces, joined again, are a prefix of the text, followed by its end or by the separator |
| GoStrings.SplitPiecesFree | main.go:118 | no piece of a split contains the separator at any position |
| GoStrings.SplitAtLeastThree | main.go:118-121 | a split yields at least three pieces exactly when the separator occurs at two non-overlapping positions |
| GoStrings.SplitThree | main.go:118-121 | three separator-free pieces joined by the separator, with anything after a further separator, split back into those pieces first |
| GoStrings.ScanUnlines | main.go:186-189 | scanning a text made of newline-terminated lines, none containing `\n` or ending in `\r`, gives the lines back |
| GoStrings.ScanAppendLine | main.go:169 | appending one newline-terminated line to such a text appends exactly one scanned line |
| LegacyBot.FormatLine | main.go:169 | the line written for a record has exactly two spaces more than its three fields together |
| LegacyBot.ParseLine | main.go:204-209 | a config line parses exactly when it has at least two spaces; with fewer, the Go code indexes past the pieces and panics |
| LegacyBot.ParseLineShape | main.go:204-209 | the parsed fields hold no space, and the record's own line is a prefix of the parsed line, followed by its end or a space |
| LegacyBot.LineRoundTrip | main.go:204-209 | the line written for a record with space-free fields parses back to that record, with any extra fields ignored |
| LegacyBot.PlainLineScans | main.go:169 | the line of a record without spaces, newlines or carriage returns passes the line scanner intact |
| LegacyBot.ConfigRoundTrip | main.go:162-213 | scanning a config file written from plain records gives one line per record, and each line parses back to its record |
| LegacyBot.AfterWrite | main.go:162-176 | as intended, a successful write keeps the old contents as a prefix and adds the record's line and a newline after them |
| LegacyBot.AfterWriteAsWritten | main.go:162-176 | as written, a successful open leaves an existing file's contents unchanged and creates a missing file empty |
| LegacyBot.WriteConfigEffect | main.go:162-176 | as written, a reload after a write sees only the records already in the file; as intended, it sees them followed by the new record |
| LegacyBot.FirstConfigCommandIsLost | main.go:163 | as written, a missing config file is created empty and stays empty; as intended, it then holds the single new line |
| LegacyBot.Fill | main.go:187-212 | the slot count never changes; a load reaches the end exactly when every line parses and its slot exists; a panic names the first line where this fails |
| LegacyBot.LoadFrom | main.go:178-213 | a load keeps the slot count; it ends early exactly when the file does not exist, and then leaves every slot as it was |
| LegacyBot.NothingToLoad | main.go:179-183 | a config file that does not exist or is empty leaves every slot as it was |
| LegacyBot.PanicStops | main.go:204-210 | once a line has panicked, the lines after it are never read |
| LegacyBot.LastLineWins | main.go:187-210 | as written, with every line parseable, slot 0 holds the last line and the other slots are untouched |
| LegacyBot.LinesFillSlotsInOrder | main.go:187-212 | as intended, with every line parseable and no more lines than slots, slot `k` holds line `k` and the rest are untouched |
| LegacyBot.AsWrittenReloadKeepsOnlyLast | main.go:178-213 | as written, reloading a file of plain records keeps only the last record, in slot 0 |
| LegacyBot.ReloadKeepsEveryRecord | main.go:178-213 | as intended, reloading a file of at most five plain records fills the slots with them in order |
| LegacyBot.TooManyLinesPanic | main.go:204-210 | as intended, a sixth parseable line indexes past the five slots and panics |
| LegacyBot.GetSecrets | main.go:112-122 | a secrets file that cannot be read yields no secrets; a readable one yields them exactly when CRLF occurs at two non-overlapping positions, i.e. the file splits into at least three pieces (fewer pieces panic at main.go:120-121) |
| LegacyBot.SecretsShape | main.go:112-122 | no secret read contains a CRLF, and the secrets are the front of the file: the three values joined by CRLF, followed by the file's end or a CRLF |
| LegacyBot.SecretsRoundTrip | main.go:112-122 | a secrets file holding three carriage-return-free values on CRLF-separated lines yields exactly those values |
| LegacyBot.FirstWord | main.go:131-133 | the command word is the message text up to its first space, or all of it |
| LegacyBot.FirstWordIsExact | main.go:133-148 | a command matches exactly when the message is that word, alone or followed by a space |
| LegacyBot.TokenAfterValidation | main.go:239-243 | the token is kept exactly when the validation status is 2xx (or regeneration yields the same token), and replaced by the regenerated one otherwise |
| LegacyBot.Bot.constructor | main.go:56-66 | the five slots start as zero records |
| LegacyBot.Bot.WriteConfigAsWritten | main.go:162-176 | as written, a failing `os.OpenFile` ends the process with the file untouched; otherwise the config file ends up existing with its contents unchanged |
| LegacyBot.Bot.WriteConfig | main.go:162-176 | as intended, a failing `os.OpenFile` ends the process with the file untouched; otherwise the record's line and a newline are appended to the file, which is created when missing |
| LegacyBot.Bot.LoadConfig | main.go:178-213 | as written, the slots and outcome are those of `LoadFrom` with every line going to slot 0 |
| LegacyBot.Bot.LoadConfigCorrected | main.go:178-213 | as intended, the slots and outcome are those of `LoadFrom` with line `k` going to slot `k` |
| LegacyBot.Bot.ValidateToken | main.go:229-244 | the token afterwards is `TokenAfterValidation` of the status |
| LegacyBot.Bot.CommandHandler | main.go:124-160 | messages from the bot or any bot are ignored; `+repo` and `+invite` send their link; `+loadConfig` reloads, then deletes the command; `+config NAME` appends a record, reloads, confirms and deletes the command; `+config` without a name panics before writing, and a config file `os.OpenFile` cannot open ends the process before anything is sent; anything else does nothing |

## Left out

- Atom parsing (youtube.go:61-66) is not modelled. The handler receives the parsed entries. The error test there reads the named result `err`, which is always nil, instead of `atomError`, so a parse error is never caught. This is noted here only, because the parser is not part of the model.
- `findChannel` is not part of this model. Its result is the handler's `channel` parameter.
- YouTube.Handle and YouTube.HandleYoutubeNotification: an empty feed panics at `feed.Entries[0]` in the source. Both require at least one entry when there is no challenge.
- Announcements use the first author and the first link of each entry. An entry without either panics in the source and has no counterpart here.
- A first entry without a `yt:channelId` or `yt:videoId` extension panics at youtube.go:69 and youtube.go:80. Entries here always carry both IDs, so that panic has no counterpart.
- A missing or nil publication time is not modelled.
- The `writeConfig()` call at youtube.go:95 persists the new seen list; persistence is not modelled.
- HTTP, Discord and OAuth transport, the Discord session's lifetime, handler goroutines and panics raised by the transport are not modelled.
- `setupYouTubeNotification` is not modelled apart from its topic URL: the subscribe request, its query string and `renewWebhook`'s sleep-and-renew loop are missing.
- twitch.go, `registerWebhook`, `generateToken`'s OAuth exchange and the other `streamInfo` fields are outside this core.
- Times are whole seconds, not Go's nanosecond `time.Time`.
- LegacyBot.Bot.LoadConfig and LegacyBot.Bot.LoadConfigCorrected: the scanner's 64 KiB token limit and read errors (a `log.Fatal` at main.go:197) are not modelled.
- LegacyBot.GetSecrets: an unreadable secrets file ends the process with `log.Fatal`; the model gives `None`, like a file with too few pieces.
- An existing config file that `loadConfig` cannot open for reading is not distinguished from a missing one: both return early with the slots unchanged, as the source does.
- LegacyBot.GetSecrets: a file with fewer than three pieces panics partway through assigning the globals. The model returns `None` and does not model the partial assignment.
- LegacyBot.Bot.CommandHandler uses the corrected `writeConfig` and `loadConfig`. The as-written versions are modelled and proved separately.

## Findings

| source | as written | input that shows it | evidently intended | confidence | as-written member | corrected member |
|---|---|---|---|---|---|---|
| main.go:187-188 | `i := 0` sits inside the scan loop, so every config line is stored in `info[0]` and overwrites the one before | a `cfg.txt` holding two valid lines: only the second survives, in slot 0 | line `k` is stored in slot `k` | high; not executed | LegacyBot.Bot.LoadConfig, LegacyBot.AsWrittenReloadKeepsOnlyLast | LegacyBot.Bot.LoadConfigCorrected, LegacyBot.ReloadKeepsEveryRecord |
| main.go:163 | `os.OpenFile` is given the append and create flags but no write mode, so on Linux and other Unix systems the file is opened read-only. The write fails, and the error is only logged | on Linux, `+config name` with a missing `cfg.txt`: the file is created empty and no record is stored | open with `O_WRONLY` as well, so the line is appended | high; not executed | LegacyBot.Bot.WriteConfigAsWritten, LegacyBot.FirstConfigCommandIsLost | LegacyBot.Bot.WriteConfig, LegacyBot.WriteConfigEffect |
