# ARK server remote-console client, modelled in Dafny

The Go package `lhw/go-pkg-ark` sends administrative commands to an ARK
game server over RCON and sorts each free-text reply into an outcome. This
project models the part of the client that does the sorting.

- **`Query`**: one command written, one reply read. A reply that contains
  `no response!!` becomes the `EmptyResponse` error.
- **Void mode** (`emptyResponse`): a command succeeds whenever a reply
  arrived.
- **Substring mode** (`simpleResponse`): a command succeeds when the reply
  contains a confirmation text.
- **Two parsers**, each built on a fixed regular expression and
  `FindAllStringSubmatch`: the player list of `listplayers` and the chat
  log of `getchat`.
- **The command strings** each operation writes.

The package exists in two forms, and both are modelled:
- `arkrcon/arkrcon.go`: the commands call the shared helpers.
- `arkrcon.go`, the older form: each command spells out its check inline.

Both are proved against the same specification functions, so the two files
agree command by command.

Modules:

- `GoStrings` (`gostrings.dfy`) holds the pieces of Go's standard library
  the client uses: the ASCII classes `\d`, `\w` and `\s` of RE2,
  `strings.Contains`, `strings.HasPrefix`, and `fmt`'s `%d`.
- `Rcon` (`rcon.dfy`) holds the error values and the remote console. The
  console's next exchange is a scripted value, and it logs every command
  written and every read attempted.
- `Replies` (`replies.dfy`) holds `Query`'s result and the verdicts of void
  mode and substring mode, as functions of what the console did.
- `Commands` (`commands.dfy`) holds the quoted chat commands, the `slomo`
  command, and what a reader of a command line sees in it.
- `PlayerList` (`playerlist.dfy`) matches `\d+\. ([^,]+), (\d+)`.
- `ChatLog` (`chatlog.dfy`) matches `(\w+)\s*(?:\(([\w\s]+)\))?:\s*(.*?)$`.
  Both matchers follow RE2's leftmost-first rules and find non-overlapping
  matches from left to right.
- `ArkRcon` (`arkrcon.dfy`) is the class `ARKRcon` of
  `arkrcon/arkrcon.go`.
- `Ark` (`ark.dfy`) is the class `ARKRcon` of `arkrcon.go`.

Every method of both classes writes exactly one command and reads at most
one reply (`RemoteConsole.OneExchange`). No read follows a failed write.
The method's result is the verdict of `Replies` for what the console did.

Without the `m` flag, `$` in the chat pattern matches only at the end of
the whole reply, and `.` does not cross a newline. So `GetChat` reports at
most one message, taken from the end of the reply. Its text is on the
last line, but its name may come from an earlier line, because `\s*` and
`[\w\s]+` match a newline (`bob:\nhello` yields the message `hello` from
`bob`, `ChatLog.NameFromEarlierLine`). The doc comment of
`GetChat` (arkrcon/arkrcon.go:92-96) shows a three-line reply. The model
follows the code: that reply yields only the `Valki(Valki): wup wup`
message (`ChatLog.DocumentedReply`). The middle line alone, with its
blank before `(`, does yield its message (`ChatLog.DocumentedLine`): any
text of the pattern's shape is found (`ChatLog.MatchParts`), and
everything found has that shape (`ChatLog.MatchAtSound`). In the player pattern, `[^,]` matches
a newline, so a player name may run across lines up to the next comma.

The model follows the code in two places where one might expect otherwise:
- Void mode returns `nil` for every reply read without error, sentinel or
  not. An unexpected reply is not reported as an error.
- There is no "no connection" outcome. The code never checks for a
  missing console.

## Model

| member | source | states |
|---|---|---|
| GoStrings.HasPrefix | arkrcon/arkrcon.go:105 | `strings.HasPrefix(s, prefix)` holds iff `prefix` is no longer than `s` and agrees with it character by character |
| GoStrings.Contains | arkrcon/arkrcon.go:229 | `strings.Contains(s, sub)` is false when `sub` is longer than `s` and true for the empty `sub` (its full meaning is `GoStrings.ContainsIff`) |
| GoStrings.ContainsIff | arkrcon/arkrcon.go:248 | `strings.Contains(s, sub)` holds exactly when `sub` occurs in `s` at some offset |
| GoStrings.ContainsInfix | arkrcon/arkrcon.go:229 | text placed anywhere in a reply is found by `strings.Contains` |
| GoStrings.NatDigits | arkrcon/arkrcon.go:172 | `%d` of a non-negative int is a non-empty string of ASCII digits, with no leading zero, that is `0` only for zero |
| GoStrings.DecimalString | arkrcon/arkrcon.go:172 | `%d` of a negative int is `-` followed by digits; of a non-negative int, digits only |
| GoStrings.NatDigitsRoundTrip | arkrcon/arkrcon.go:172 | reading back the digits `%d` wrote gives the number |
| GoStrings.DecimalStringInjective | arkrcon/arkrcon.go:172 | distinct ints have distinct `%d` renderings |
| Rcon.RemoteConsole.Write | arkrcon/arkrcon.go:236 | the command is logged as written; the error is the channel's write failure, if any |
| Rcon.RemoteConsole.Read | arkrcon/arkrcon.go:242 | one read is counted; it yields the channel's reply with no error, or the read/write failure with no reply |
| Replies.QueryResult | arkrcon/arkrcon.go:235-252 | nil error iff a reply was read and lacks `no response!!`, and then the reply is returned unchanged; `EmptyResponse` with an empty reply iff the read reply holds the sentinel; a transport failure is passed on with its cause and an empty reply; never `FailResponse` |
| Replies.VoidVerdict | arkrcon/arkrcon.go:215-222 | void mode succeeds iff a reply was read, sentinel or not; otherwise it returns the transport error unchanged, never `FailResponse` or `EmptyResponse` |
| Replies.SubstringVerdict | arkrcon/arkrcon.go:224-233 | nil iff the reply was read, lacks the sentinel and contains `exp`; `FailResponse` iff read, no sentinel, no `exp`; `EmptyResponse` iff it holds the sentinel (even with `exp`); else the transport error with its cause |
| Replies.SentinelAnywhere | arkrcon/arkrcon.go:248-250 | wherever `no response!!` stands in a reply, `Query` gives `("", EmptyResponse)` |
| Replies.VoidAcceptsSentinelAnywhere | arkrcon/arkrcon.go:215-233 | a reply holding the sentinel is a void-mode success whatever surrounds it; when it also holds the expected text `exp` (which `Contains` finds), substring mode still gives `EmptyResponse` |
| Replies.SubstringAnywhere | arkrcon/arkrcon.go:229-232 | the substring check is unanchored: the expected text may stand anywhere in a sentinel-free reply |
| Replies.SubstringRefinesVoid | arkrcon/arkrcon.go:215-233 | on a transport failure both modes give the same error; substring mode succeeds only where void mode does |
| Commands.ChatToPlayerCommand | arkrcon/arkrcon.go:79 | the command is `serverchattoplayer "`, the player, `" "`, the message and `"`: the player and message stand unescaped at fixed offsets |
| Commands.ChatToIdCommand | arkrcon/arkrcon.go:86 | the command is `serverchatto "`, the id, `" "`, the message and `"`: the id and message stand unescaped at fixed offsets |
| Commands.SlomoCommand | arkrcon/arkrcon.go:172 | the command is `slomo ` and the decimal multiplier: a minus sign exactly for a negative multiplier, digits only otherwise |
| Commands.ChatToPlayerFields | arkrcon/arkrcon.go:79 | `serverchattoplayer "p" "m"` splits at double quotes into exactly the head, `p`, a blank, `m` and nothing, when neither argument holds a quote |
| Commands.ChatToPlayerQuoteCutsName | arkrcon/arkrcon.go:79 | quotes are not escaped: a player name holding `"` reaches the server cut at that quote |
| Commands.ChatToIdFields | arkrcon/arkrcon.go:86 | `serverchatto "id" "m"` splits at double quotes into exactly the head, `id`, a blank, `m` and nothing, when neither argument holds a quote |
| Commands.SlomoCommandInjective | arkrcon/arkrcon.go:172 | distinct multipliers give distinct `slomo %d` commands |
| Commands.ConfirmationExcludes | arkrcon/arkrcon.go:118-165 | two confirmation texts `<id>word` and `<id>other` exclude each other when `other` has a letter that cannot line up with `word`; so `<id> Unbanned` never contains `<id> Banned` and `<id> Disallowed` never contains `<id> Allow` |
| PlayerList.MatchAt | arkrcon/arkrcon.go:52 | a match at the start of the text is a prefix of it made of a digit index, `. `, a non-empty comma-free name, `, ` and a maximal run of digits |
| PlayerList.Submatches | arkrcon/arkrcon.go:54 | every submatch `FindAllStringSubmatch` returns has that shape |
| PlayerList.SubmatchesInOrder | arkrcon/arkrcon.go:54 | the matches occur in the reply left to right without overlapping |
| PlayerList.Players | arkrcon/arkrcon.go:52-57 | one player per match, each with a non-empty comma-free username and a non-empty all-digit Steam64 id |
| PlayerList.CollectPlayers | arkrcon/arkrcon.go:53-57 | the append loop yields `ARKPlayer{m[1], m[2]}` for each submatch, in order |
| PlayerList.NoCommaNoPlayers | arkrcon/arkrcon.go:52-58 | a reply without a comma (the empty reply among them) yields no players |
| PlayerList.NoPlayersBanner | arkrcon/arkrcon.go:44 | `No Players Connected` yields an empty list |
| PlayerList.MatchLine | arkrcon/arkrcon.go:52 | a roster line `N. name, id`, not followed by a digit, is matched whole with groups `name` and `id` |
| PlayerList.MatchIndexed | arkrcon/arkrcon.go:52 | the converse of `MatchAt`'s contract: any run of digits as the index (leading zeros included), `. `, a comma-free name, `, ` and a digit id, not followed by a digit, is matched whole with groups `name` and `id` |
| PlayerList.RosterSubmatches | arkrcon/arkrcon.go:54 | a roster of well-formed lines joined by newlines yields one submatch per line, in order |
| PlayerList.RosterRoundTrip | arkrcon/arkrcon.go:52-57 | parsing a roster the server prints gives back exactly its players, in order |
| PlayerList.DocumentedReply | arkrcon/arkrcon.go:45 | `0. CyFreeze, 76561198025588951` parses to the one player `CyFreeze` with that id |
| PlayerList.TwoPlayerReply | arkrcon/arkrcon.go:45-46 | a two-line roster parses to its two players in order |
| ChatLog.MatchAt | arkrcon/arkrcon.go:101 | a match at the start of the text spans all of it (`$` anchors at the end of the reply) and has the whole match and three groups |
| ChatLog.MatchAtSound | arkrcon/arkrcon.go:101 | that match is a non-empty word name, blanks, an optional parenthesised `[\w\s]` name, `:`, blanks, and a message with no newline that does not start with a blank |
| ChatLog.Submatches | arkrcon/arkrcon.go:103 | `FindAllStringSubmatch` finds at most one match, each of four strings |
| ChatLog.SubmatchEndsReply | arkrcon/arkrcon.go:101-103 | the one match, if any, ends at the end of the reply |
| ChatLog.SubmatchesSound | arkrcon/arkrcon.go:103 | every submatch found has the shape of the pattern |
| ChatLog.Messages | arkrcon/arkrcon.go:101-106 | at most one message; `ServerMessage` holds iff the username starts with `SERVER` |
| ChatLog.MessagesShape | arkrcon/arkrcon.go:101-106 | a reported message has a non-empty word username, a `[\w\s]` display name and a newline-free text |
| ChatLog.CollectChat | arkrcon/arkrcon.go:102-106 | the append loop yields `ARKChatMsg{m[1], m[2], m[3], HasPrefix(m[1], "SERVER")}` for each submatch |
| ChatLog.MatchParts | arkrcon/arkrcon.go:101 | the converse of `MatchAtSound`: a text that is a word name, any blanks, an optional parenthesised `[\w\s]` name, `:`, any blanks and a newline-free text not starting with a blank is matched whole, with those three parts as the groups; so a match exists at a start iff the text there has the pattern's shape |
| ChatLog.MessagesOfParts | arkrcon/arkrcon.go:101-106 | a reply of that shape yields exactly one message, of its name, display name and text, flagged as the server's iff the name starts with `SERVER` |
| ChatLog.DocumentedLine | arkrcon/arkrcon.go:93-94 | the documented line `CyFreeze (Bob The Builder): foobar`, with a blank before `(`, yields the message of `CyFreeze` as `Bob The Builder` with text `foobar`, not a server message |
| ChatLog.MatchLine | arkrcon/arkrcon.go:101 | a line `name(display): text` or `name: text` is matched whole, with an empty display name when the group is absent |
| ChatLog.NoMatchInPrefix | arkrcon/arkrcon.go:101 | no match starts inside earlier lines that end in a newline and leave no colon followed only by blanks, when the last line opens with a word and `(` or `:` |
| ChatLog.SkipSettledPrefix | arkrcon/arkrcon.go:103 | such earlier lines contribute no match |
| ChatLog.LastLineReported | arkrcon/arkrcon.go:101-107 | a reply ending with a well-formed chat line after such lines yields exactly the message of that last line |
| ChatLog.DocumentedReply | arkrcon/arkrcon.go:92-96 | the documented three-line reply yields only `Valki(Valki): wup wup`, not a server message |
| ChatLog.NameFromEarlierLine | arkrcon/arkrcon.go:101-106 | blanks cross newlines: `bob:\nhello` yields the one message `hello` from `bob`, though the last line alone has no match |
| ChatLog.ServerPrefixMisfires | arkrcon/arkrcon.go:105 | the server test is a prefix test: a user named `SERVERA` is flagged as the server |
| ArkRcon.ArkRcon.Query | arkrcon/arkrcon.go:235-252 | one command written and no read after a failed write; the result is `QueryResult` of the channel |
| ArkRcon.ArkRcon.EmptyResponseCommand | arkrcon/arkrcon.go:215-222 | one exchange; the result is the void-mode verdict |
| ArkRcon.ArkRcon.SimpleResponseCommand | arkrcon/arkrcon.go:224-233 | one exchange; the result is the substring-mode verdict for `exp` |
| ArkRcon.ArkRcon.ListPlayers | arkrcon/arkrcon.go:41-59 | writes `listplayers`; the error is `Query`'s; on success the players parsed from the reply, otherwise no list |
| ArkRcon.ArkRcon.GetChat | arkrcon/arkrcon.go:91-108 | writes `getchat`; the error is `Query`'s; on success the message parsed from the reply, otherwise no list |
| ArkRcon.ArkRcon.SaveWorld | arkrcon/arkrcon.go:61-66 | writes `saveworld`; succeeds iff the reply contains `World Saved` |
| ArkRcon.ArkRcon.DoExit | arkrcon/arkrcon.go:68-73 | writes `doexit`; succeeds iff the reply contains `Exiting` |
| ArkRcon.ArkRcon.SendChatToPlayer | arkrcon/arkrcon.go:75-80 | writes `serverchattoplayer "p" "m"`; void mode |
| ArkRcon.ArkRcon.SendChatToID | arkrcon/arkrcon.go:82-87 | writes `serverchatto "id" "m"`; void mode |
| ArkRcon.ArkRcon.SetTimeOfDay | arkrcon/arkrcon.go:110-116 | writes `settimeofday ` and the time unchecked; void mode |
| ArkRcon.ArkRcon.WhitelistPlayer | arkrcon/arkrcon.go:118-123 | writes `allowplayertojoinnocheck id`; succeeds iff the reply contains `id Allow` |
| ArkRcon.ArkRcon.RemoveWhitelist | arkrcon/arkrcon.go:125-130 | writes `disallowplayertojoinnocheck id`; succeeds iff the reply contains `id Disallowed` |
| ArkRcon.ArkRcon.SetMessageOfTheDay | arkrcon/arkrcon.go:132-137 | writes `setmessageoftheday motd`; succeeds iff the reply contains `Message of set to` |
| ArkRcon.ArkRcon.Broadcast | arkrcon/arkrcon.go:139-144 | writes `broadcast message`; void mode |
| ArkRcon.ArkRcon.KickPlayer | arkrcon/arkrcon.go:146-151 | writes `kickplayer id`; succeeds iff the reply contains `id Kicked` |
| ArkRcon.ArkRcon.BanPlayer | arkrcon/arkrcon.go:153-158 | writes `banplayer id`; succeeds iff the reply contains `id Banned` |
| ArkRcon.ArkRcon.UnbanPlayer | arkrcon/arkrcon.go:160-165 | writes `unbanplayer id`; succeeds iff the reply contains `id Unbanned` |
| ArkRcon.ArkRcon.Slomo | arkrcon/arkrcon.go:167-173 | writes `slomo` and the decimal multiplier; void mode |
| ArkRcon.ArkRcon.DestroyWildDinos | arkrcon/arkrcon.go:175-181 | writes `destroywilddinos`; void mode |
| ArkRcon.ArkRcon.DestroyAllEnemies | arkrcon/arkrcon.go:183-189 | writes `destroyallenemies`; void mode |
| ArkRcon.KickConfirmedByLongerId | arkrcon/arkrcon.go:146-151 | a reply confirming the kick of a longer id ending in `id` confirms the kick of `id` |
| ArkRcon.ReplyConfirmsOnlyItsWord | arkrcon/arkrcon.go:118-165 | for every id, a sentinel-free reply `<id>word` confirms the command expecting `<id>word` and is `FailResponse` for one expecting `<id>other`, when `other` cannot line up with `word` |
| ArkRcon.UnbanReplyFailsBan | arkrcon/arkrcon.go:153-165 | the reply `id Unbanned` confirms `UnbanPlayer(id)` and is `FailResponse` for `BanPlayer(id)` |
| ArkRcon.DisallowReplyFailsWhitelist | arkrcon/arkrcon.go:118-130 | the reply `id Disallowed` confirms `RemoveWhitelist(id)` and is `FailResponse` for `WhitelistPlayer(id)` |
| Ark.ArkRcon.Query | arkrcon.go:278-295 | the same contract as the newer `Query`: one command, no read after a failed write, result `QueryResult` |
| Ark.ArkRcon.ListPlayers | arkrcon.go:39-57 | the same parse and errors as the newer `ListPlayers` |
| Ark.ArkRcon.GetChat | arkrcon.go:111-128 | the same parse and errors as the newer `GetChat` |
| Ark.ArkRcon.SaveWorld | arkrcon.go:59-71 | the inline check gives the substring-mode verdict for `World Saved` |
| Ark.ArkRcon.DoExit | arkrcon.go:73-85 | the inline check gives the substring-mode verdict for `Exiting` |
| Ark.ArkRcon.SendChatToPlayer | arkrcon.go:87-97 | the inline check gives the void-mode verdict for `serverchattoplayer "p" "m"` |
| Ark.ArkRcon.SendChatToID | arkrcon.go:99-109 | the inline check gives the void-mode verdict for `serverchatto "id" "m"` |
| Ark.ArkRcon.SetTimeOfDay | arkrcon.go:130-140 | the inline check gives the void-mode verdict for `settimeofday time` |
| Ark.ArkRcon.WhitelistPlayer | arkrcon.go:142-155 | the inline check gives the substring-mode verdict for `id Allow` |
| Ark.ArkRcon.RemoveWhitelist | arkrcon.go:157-170 | the inline check gives the substring-mode verdict for `id Disallowed` |
| Ark.ArkRcon.SetMessageOfTheDay | arkrcon.go:172-186 | the inline check gives the substring-mode verdict for `Message of set to` |
| Ark.ArkRcon.Broadcast | arkrcon.go:188-198 | the inline check gives the void-mode verdict for `broadcast message` |
| Ark.ArkRcon.KickPlayer | arkrcon.go:200-212 | the inline check gives the substring-mode verdict for `id Kicked` |
| Ark.ArkRcon.BanPlayer | arkrcon.go:214-226 | the inline check gives the substring-mode verdict for `id Banned` |
| Ark.ArkRcon.UnbanPlayer | arkrcon.go:228-240 | the inline check gives the substring-mode verdict for `id Unbanned` |
| Ark.ArkRcon.Slomo | arkrcon.go:242-252 | the inline check gives the void-mode verdict for `slomo %d` |

## Left out

- `NewARKRconConnection` and `rcon.Dial` are networking in the external
  `james4k/rcon` library. That library is not part of this model. The
  constructors of both classes take an already-connected console.
- `rc.Write` and `rc.Read` are modelled by their outcome only, a scripted
  `TransportResult`. Request and response ids, packet framing,
  authentication and timeouts are not modelled.
- The `log.Println` calls are logging only.
- The stubs `giveItemToPlayer`, `clearPlayerInventory`, `killPlayer`,
  `giveExpToPlayer` and `forcePlayerToJoinTribe` have empty bodies and no
  behaviour.
- `arkrcon/arkrcon_test.go` is an integration test against a live server.
- A general regular-expression engine is not modelled. Only the two fixed
  patterns are written out as matchers.
- Strings are sequences of characters, one per rune. Invalid UTF-8 and
  byte-level differences are not modelled, and neither is Go's `\s` on
  non-ASCII text, which RE2 does not match either.
- `ArkRcon.ArkRcon.ListPlayers`, `ArkRcon.ArkRcon.GetChat`,
  `Ark.ArkRcon.ListPlayers` and `Ark.ArkRcon.GetChat` return an empty
  sequence where Go returns a `nil` slice on error. Dafny has no
  distinct `nil` sequence.
- `Slomo` takes an unbounded integer. Go's `int` width does not matter for
  `%d`, which renders any value it holds.
