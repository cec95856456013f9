# SCP:SL permissions manager: file codec and commands

This models the Discord bot that manages the permission files of SCP: Secret Laboratory game
servers. Each server keeps three plain-text files:

- the remote-admin file: a `Roles:` block of ` - <role>` lines and a `Members:` block of
  ` - <id>@steam: <role>` lines;
- the whitelist and the reserved-slot file: one `<id>@steam` token per line.

A command fetches one of these files over SFTP into a local copy. It reads the copy and may
rewrite it with one string transform. Whenever it applies a transform it pushes the copy back,
even if the transform left the text as it was.

The project has six modules:

| module | file | what it holds |
|---|---|---|
| `Wrappers` | `wrappers.dfy` | `Option`, `Result` and the one error the codec raises, `IndexError` |
| `Text` | `text.dfy` | the Python `str` operations the codec uses: `in`, `split` and `replace`, all built on `Find`, the leftmost search; `join` (used by `show_users`) to state what `split` and `replace` give back; the lemmas relating them |
| `Steam` | `steam.dfy` | `clean_steamid64` and `get_steam_profile_link` |
| `FileOperations` | `file_operations.dfy` | every method of `FileOperations`, text in and text or value out. `get_role` and `get_users` are loop methods proved against recursive functions. `re.search(r"(\d+@steam): (\w+)")` is modelled by a leftmost, longest-run matcher, and a lemma ties it to the literal reading of the pattern |
| `Bot` | `bot.dfy` | the commands `server_roles`, `grant_role`, `remove_role`, `white_list` and `reserved_slots` |
| `Listing` | `listing.dfy` | the two computations inside `show_users`: which lines of a membership file are listed, and how the listing is cut into messages below 4000 characters |

In `Bot`, the file store is a remote map and a local map from path to text, plus a log of
transfers. `File.get` copies remote to local and `File.put` copies local to remote. Each command
has two forms:

- a function of the store that returns the reply and the new store;
- a method on a `FileStore` object whose fields are updated in place. Its `ensures` states that
  it computes exactly what the function computes.

The predicate `Bot.Disciplined` states what a command may do to the store:

- it transfers anything exactly when its checks pass and the remote file exists, and then a
  fetch comes first;
- it pushes only when it mutated, then exactly once and last;
- the remote side changes only by that push;
- no other local file changes.

Each command's function also states that a reply which writes nothing leaves the store exactly
as its fetch left it.

Points where the code does more or less than its names suggest:

- `add_role` inserts the new entry after every `Members:\n` header, not only the first
  (`FileOperations.AddRoleAfterEveryHeader`).
- The entry `add_role` writes includes its trailing line break.
- `change_role` and `remove_role` replace every occurrence of their pattern.
- `contains_role` is a substring test, so a prefix of a listed role name is accepted too
  (`FileOperations.ContainsRolePrefix`).
- The codec is not total. `get_role` raises `IndexError` when the first line mentioning the ID
  lacks `<id>@steam: `. `get_roles`, and with it `contains_role`, raises when there is no
  `Roles:`. No command catches `IndexError`: it escapes the command body and reaches the bot's
  `on_slash_command_error` handler (app/main.py:42-63), which only logs it. The reply `Crashed`
  stands for that escaped exception; what the command sent before it stays on screen.
- Removal deletes every `\n<id>@steam`, that is every token that follows a line break. So
  when a document's only mention of the ID is a last line `\n<id>@steam`, adding the ID again
  and then removing it drops both copies and leaves the ID unlisted
  (`FileOperations.ReaddRemoveDropsLastLine`, `FileOperations.AddRemoveDropsExistingMember`).
  A token on the very first line has no line break before it and is never removed
  (`FileOperations.FirstLineTokenStays`), so an ID listed only there is still listed after
  add-then-remove.
- `remove_role` deletes an entry only together with the line break after it. An entry on the
  last line with no line break after it is read by `get_role` but not deleted; the command
  still answers that the role was removed and pushes the unchanged file (see "## Findings").

## Model

| member | source | states |
|---|---|---|
| Steam.CleanSteamId64 | utils/steam.py:69-73 | returns a value iff the input has exactly 17 digit characters; that value is the input's digits in order, 17 of them, all digits |
| Steam.KeepDigits | utils/steam.py:70 | removing the non-digits leaves only digits and never lengthens the text |
| Steam.KeepDigitsConcat | utils/steam.py:70 | removing non-digits distributes over concatenation |
| Steam.KeepDigitsCounts | utils/steam.py:70 | each digit occurs in the cleaned text as often as in the input, and no other character occurs |
| Steam.KeepDigitsOfDigits | utils/steam.py:70 | a text of digits only is left unchanged |
| Steam.CleanIdempotent | utils/steam.py:69-73 | cleaning an already cleaned ID returns it unchanged |
| Steam.CleanFixedPoints | utils/steam.py:69-73 | a text is its own cleaned form iff it is 17 digits |
| Steam.ProfileLink | utils/steam.py:65-66 | the link is the fixed profile prefix followed by the ID |
| Steam.ProfileLinkInjective | utils/steam.py:65-66 | different IDs give different links |
| Text.Find | utils/file_operations.py:11-13 | the leftmost search behind `in` and `split`: it returns the first index where the pattern occurs, with no occurrence before it, or -1 when there is none |
| Text.Split | utils/file_operations.py:11 | a split always has at least one part |
| Text.SplitSingle | utils/file_operations.py:11 | a split has a single part exactly when the separator is absent, and that part is the whole text |
| Text.ReplaceAll | utils/file_operations.py:57-60 | a replacement no longer than the pattern never lengthens the text, and a longer one never shortens it |
| Text.ReplaceChanges | utils/file_operations.py:57-60 | without an occurrence, `replace` returns the text. When the pattern occurs, a strictly shorter replacement strictly shortens the text and a strictly longer one strictly lengthens it |
| Text.JoinSplit | utils/file_operations.py:11 | joining the parts of a split with the separator gives back the text |
| Text.SplitPartsFree | utils/file_operations.py:11 | no part of a split holds the separator |
| Text.SplitCharCount | utils/file_operations.py:11 | splitting on a character gives one part more than the character's count |
| Text.ReplaceIsJoinSplit | utils/file_operations.py:28-31 | `replace` equals joining the split parts with the replacement, so every occurrence is replaced |
| Text.ReplaceOnce | utils/file_operations.py:28-31 | with exactly one occurrence, `replace` swaps that region and keeps the rest byte for byte |
| Text.ReplaceKeepsCount | utils/file_operations.py:48-51 | replacing by a text without a character keeps that character's count |
| Text.ContainsInSomePart | utils/file_operations.py:66-69 | a pattern without the split character occurs in the text iff it occurs in one of the parts |
| FileOperations.RoleOnLine | utils/file_operations.py:13 | reading the role off a line raises exactly when the line lacks `<id>@steam: ` |
| FileOperations.FindRole | utils/file_operations.py:11-14 | the reference scan returns None exactly when no line contains the ID |
| FileOperations.GetRole | utils/file_operations.py:9-14 | the loop returns what the line-by-line reference `FindRole` gives |
| FileOperations.NoLineMentions | utils/file_operations.py:11-14 | a document not mentioning an ID has no role for it |
| FileOperations.FindRoleNone | utils/file_operations.py:11-14 | `get_role` returns None iff no line contains the ID |
| FileOperations.FindRoleFirst | utils/file_operations.py:11-13 | otherwise the first line containing the ID decides the result |
| FileOperations.FindRoleSkip | utils/file_operations.py:11-12 | lines not mentioning the ID do not affect the result |
| FileOperations.RoleOnLineSpec | utils/file_operations.py:13 | the role read from a line raises iff the line lacks `<id>@steam: `. Otherwise it is the text after the first marker, up to the first literal backslash-n or the next marker, or to the end of the line. No marker starts before the role ends, and for an ID starting with a digit no backslash-n does either |
| FileOperations.RoleDetermined | utils/file_operations.py:13 | for an ID starting with a digit, those clauses determine the role: any text meeting them is what the line yields |
| FileOperations.GetRoles | utils/file_operations.py:17-23 | `get_roles` raises exactly when `Roles:` does not occur |
| FileOperations.GetRolesSpec | utils/file_operations.py:17-23 | `get_roles` raises iff `Roles:` does not occur. Otherwise it returns the text after the first `Roles:`, up to the first blank line or second `Roles:`, or to the end. No blank line and no second `Roles:` starts before the block ends |
| FileOperations.RolesBlockDetermined | utils/file_operations.py:17-23 | those clauses determine the block: any text meeting them is what `get_roles` returns |
| FileOperations.AnyLineContainsIff | utils/file_operations.py:66-69 | the `any(...)` scan is true iff some line contains the pattern |
| FileOperations.ContainsRole | utils/file_operations.py:64-69 | `contains_role` raises exactly when `Roles:` does not occur |
| FileOperations.ContainsRoleSpec | utils/file_operations.py:64-69 | `contains_role` raises iff `get_roles` does; for a one-line role name it is true iff ` - <role>` occurs in the roles block |
| FileOperations.ContainsRolePrefix | utils/file_operations.py:64-69 | a role is accepted whenever a longer name starting with it is |
| FileOperations.AddRole | utils/file_operations.py:26-32 | `add_role` changes the text exactly when it has a `Members:\n` header, and never shortens it |
| FileOperations.AddRoleSpec | utils/file_operations.py:26-32 | with no `Members:\n` the text is unchanged; with exactly one, the result is the text up to the header, the header, the new entry with its line break, then the rest |
| FileOperations.AddRoleAfterEveryHeader | utils/file_operations.py:26-32 | the new entry follows every header |
| FileOperations.ChangeRole | utils/file_operations.py:46-52 | `change_role` leaves the text as it is when `<id>@steam: <old>` is absent, changes it when that occurs and the two roles differ in length, and keeps the length when they have the same length |
| FileOperations.RemoveRole | utils/file_operations.py:55-61 | `remove_role` changes the text exactly when ` - <id>@steam: <role>\n` occurs, and when it changes the text it makes it strictly shorter |
| FileOperations.FindRoleOnLastLine | utils/file_operations.py:9-14 | `get_role` reads the role of an entry on the last line, with no line break after it, for an ID not mentioned before it |
| FileOperations.UnterminatedEntryNotRemoved | utils/file_operations.py:55-61 | such an entry does not contain the pattern `remove_role` deletes |
| FileOperations.RemoveRoleMissesLastEntry | utils/file_operations.py:9-61 | so `get_role` still reports the role while `remove_role` returns the document unchanged |
| FileOperations.ChangeRoleKeepsLineCount | utils/file_operations.py:46-52 | changing a role between one-line names keeps the number of lines |
| FileOperations.AddMiscellaneous | utils/file_operations.py:72-75 | the old text is a prefix of the result, and the ID is a member afterwards |
| FileOperations.RemoveMiscellaneous | utils/file_operations.py:78-84 | `remove_miscellaneous` changes the text exactly when `\n<id>@steam` occurs, and when it changes the text it makes it strictly shorter |
| FileOperations.InMiscellaneous | utils/file_operations.py:87-89 | `in_miscellaneous` is true exactly when the ID occurs somewhere in the text, on any line and at any position |
| FileOperations.FirstLineTokenStays | utils/file_operations.py:78-89 | a token on the first line is not removed, so the ID is still a member afterwards |
| FileOperations.MatchAtIff | utils/file_operations.py:39 | a match found by the model exists iff the pattern matches there literally. The groups are the only possible digit run and the longest word run |
| FileOperations.MatchesWithGroups | utils/file_operations.py:39 | any literal match of the pattern takes the whole digit run as its ID and ends inside the longest run of word characters |
| FileOperations.SearchFrom | utils/file_operations.py:39 | `re.search` finds the leftmost index where a match starts, or none |
| FileOperations.KeyAt | utils/file_operations.py:41 | the first group is digits followed by `@steam` |
| FileOperations.ValueAt | utils/file_operations.py:41 | the second group is one or more word characters |
| FileOperations.MatchGroupsContained | utils/file_operations.py:39-41 | the two groups, with `: ` between them, are a piece of the line |
| FileOperations.UserMatch | utils/file_operations.py:39-41 | a line has no match iff no index starts one. Otherwise the groups are a key and a role that occur in the line as `<key>: <role>` |
| FileOperations.UsersOf | utils/file_operations.py:35-43 | every key of the dictionary ends in `@steam` after digits, and every value is a word |
| FileOperations.GetUsers | utils/file_operations.py:35-43 | the loop builds exactly the dictionary of the line-by-line reference `UsersOf` |
| FileOperations.UsersOfKeys | utils/file_operations.py:38-42 | a key is present iff some line's first match has it |
| FileOperations.UsersOfSnoc | utils/file_operations.py:38-42 | one more line records its first match over the earlier ones |
| FileOperations.UsersOfLastWins | utils/file_operations.py:42 | for a repeated ID, the last line that matches it gives the value |
| FileOperations.UserMatchOfMemberEntry | utils/file_operations.py:30-41 | a Members entry written by `add_role` reads back as `<id>@steam` and its one-word role |
| FileOperations.RoleOnMemberEntry | utils/file_operations.py:13-30 | `get_role`'s parse of a freshly written entry gives the role written |
| FileOperations.LinesAfterAddRole | utils/file_operations.py:11-31 | after `add_role` the lines are the old lines up to the header, the new entry, then the old lines after it |
| FileOperations.GetRoleAfterAddRole | utils/file_operations.py:9-32 | granting a role to an ID the document does not mention, then `get_role`, gives that role |
| FileOperations.GetUsersAfterAddRole | utils/file_operations.py:26-43 | after such a grant of a one-word role (one header, an ID the document does not mention), `get_users` lists the ID with that role; `\w+` would cut a longer role at its first non-word character |
| FileOperations.RemoveRoleAfterAddRole | utils/file_operations.py:26-61 | in a document with exactly one `Members:\n` header that does not mention the ID, granting then removing the same role gives back the original document byte for byte |
| FileOperations.RemoveAfterAddMiscellaneous | utils/file_operations.py:72-84 | adding an unlisted ID and removing it restores the text |
| FileOperations.AddRemoveDropsExistingMember | utils/file_operations.py:72-89 | for the document that is just the line `\n<id>@steam`, adding the ID again and removing it leaves the empty document, where the ID is unlisted |
| FileOperations.ReaddRemoveDropsLastLine | utils/file_operations.py:72-89 | for any document whose only mention of the ID is the last line `\n<id>@steam` an earlier add left, adding the ID again and removing it gives back the document from before that add, and the ID is unlisted |
| Bot.Fetch | utils/file_manager.py:43-55 | `File.get` succeeds exactly when the remote file exists; it leaves the remote side alone, copies the remote text over the local copy, keeps every other local file and logs one fetch |
| Bot.Push | utils/file_manager.py:38-51 | `File.put` sets the remote file to the local copy, keeps every other remote file and the local side, and logs one push |
| Bot.FetchDisciplined | utils/file_manager.py:43-47 | a fetch only copies the remote file to the local copy and logs one fetch |
| Bot.PushDisciplined | utils/file_manager.py:30-47 | a fetch, a local write and a push keep to the discipline; the remote file then holds the written text |
| Bot.FileStore.Get | utils/file_manager.py:43-55 | fails iff the remote file is missing; otherwise it copies it over the local copy |
| Bot.FileStore.Put | utils/file_manager.py:38-51 | copies the local file over the remote one |
| Bot.FileStore.Read | utils/file_manager.py:57-60 | returns the local file's text |
| Bot.FileStore.Write | utils/file_manager.py:62-65 | replaces the local file's text and changes nothing else |
| Bot.ServerRolesSpec | app/main.py:360-381 | `server_roles` never pushes. It fails exactly when the remote file is missing, and then changes nothing; otherwise it fetches once, and the store is exactly what that fetch left. Otherwise it raises exactly when `get_roles` does, and else lists the roles block of the remote file with the flag it was called with |
| Bot.GrantRefusalShowsServerRoles | app/main.py:155-157 | when `grant_role` refuses an unlisted role, its reply is exactly what `server_roles` shows for that server, and neither command changes a remote file |
| Bot.ServerRoles | app/main.py:360-381 | the method computes exactly `ServerRolesSpec` |
| Bot.GrantSpec | app/main.py:89-184 | `grant_role` keeps to the discipline. It answers "invalid ID" exactly when the ID is not 17 digits, and "prohibited" exactly when the role is prohibited; the transfer fails exactly when the checks pass and the remote file is missing. These three change nothing and transfer nothing; in every other case it fetches first and is `GrantOnFile` |
| Bot.GrantOnFile | app/main.py:149-184 | on a fetched role file: it raises exactly when `get_role` or `contains_role` raises. It lists the roles exactly when the role is not listed. It answers "already has" exactly when the role is listed and held. Raising or "already has" leaves the store exactly as the fetch left it, and listing the roles leaves it as a second fetch (by `server_roles`) left it. It changes and pushes exactly when a different non-empty role is held, and adds an entry and pushes exactly when there is no role or an empty one |
| Bot.GrantRole | app/main.py:132-184 | the method computes exactly `GrantSpec` |
| Bot.GrantThenReadBack | app/main.py:149-184 | granting a listed role to an ID the file does not mention gives "granted", and `get_role` on the pushed file returns that role |
| Bot.RevokeSpec | app/main.py:89-220 | `remove_role` keeps to the discipline. It answers "invalid ID" exactly when the ID is not 17 digits and fails exactly when the remote file is missing, changing nothing in either case; otherwise it fetches first. It raises exactly when `get_role` raises. No role, or an empty one, means no write and no push; these two replies leave the store exactly as the fetch left it. Otherwise the entry with exactly the role read is removed and pushed |
| Bot.RevokeRole | app/main.py:187-220 | the method computes exactly `RevokeSpec` |
| Bot.RevokeOfUnterminatedEntry | app/main.py:202-219 | on a role file ending in the player's entry with no line break after it, `remove_role` answers "removed" and logs a fetch and a push, but every remote file stays as it was and `get_role` still gives the role |
| Bot.RevokeSpecFixed | app/main.py:202-219 | corrected `remove_role`: it answers "removed" only when the file held the entry with its line break and got shorter. When the entry to delete does not occur, it answers "not removed", changes no remote file and leaves the store exactly as its fetch left it. Otherwise it is `remove_role` |
| Bot.RevokeFixedOfUnterminatedEntry | app/main.py:202-219 | on that same file the corrected command answers "not removed", only fetches, and changes no remote file |
| Bot.RevokeRoleFixed | app/main.py:202-219 | the method computes exactly `RevokeSpecFixed` |
| Bot.GrantThenRevokeRestores | app/main.py:137-220 | a fresh grant followed by a revoke leaves every remote file as it was |
| Bot.MembershipSpec | app/main.py:384-494 | `white_list` and `reserved_slots` keep to the discipline. An invalid ID or a missing file transfers nothing; otherwise it fetches first. "Add" writes iff the ID is not mentioned and "remove" writes iff it is; each write is the codec's add or remove on the fetched text, and the replies that write nothing leave the store exactly as the fetch left it |
| Bot.ManageMembership | app/main.py:406-440 | the method computes exactly `MembershipSpec` |
| Bot.WhiteList | app/main.py:384-440 | `white_list` is `MembershipSpec` on the whitelist file |
| Bot.ReservedSlots | app/main.py:443-494 | `reserved_slots` is `MembershipSpec` on the reserved-slot file |
| Bot.AddThenRemoveRestores | app/main.py:406-440 | adding an unlisted ID then removing it gives "added", then "removed", and leaves every remote file as it was |
| Bot.AddTwiceIsAlreadyMember | app/main.py:411-416 | after a successful add, adding again answers "already a member" and changes no remote file |
| Listing.ListedLines | app/main.py:325-328 | a line is listed iff it is a line of the file, does not start with `#` and has at least 17 characters |
| Listing.ListedLinesBound | app/main.py:326 | there are at most as many listed lines as the file has lines |
| Listing.AddedMemberListed | app/main.py:325-328 | an ID added by `add_miscellaneous` is listed afterwards |
| Listing.ListedOfThree | app/main.py:326-327 | of a comment, a short line and a long line, only the long line is listed |
| Listing.ListingSkipsCommentsAndShortLines | app/main.py:326-327 | a concrete whitelist lists only its token |
| Listing.Flush | app/main.py:342-354 | the chunking emits at most one message per entry plus one, and at least one while the current chunk is not empty |
| Listing.Paginated | app/main.py:334-354 | `show_users` always emits at least one message, and at most one per entry plus one |
| Listing.Paginate | app/main.py:334-354 | the loop emits exactly the messages of the reference `Paginated` |
| Listing.FlushConcat | app/main.py:342-354 | the chunks read back, in order, as the current text followed by every entry |
| Listing.FlushBound | app/main.py:342-352 | every chunk is under 4000 characters, or is a single oversized entry or the header |
| Listing.FlushGroups | app/main.py:342-354 | each chunk is the concatenation of one group of consecutive entries; the groups split the entries without loss or overlap |
| Listing.PaginatedSpec | app/main.py:334-354 | no entries give the "no users" notice, and a listing under the limit gives one edit. Otherwise the chunks concatenate back to header + entries, each is under the limit or a single piece, and each entry is in exactly one chunk |
| Listing.EditsOverwriteChunks | app/main.py:342-354 | as written, a header and two 3999-character entries give two edits and a follow-up; the header is no longer on screen |
| Listing.FlushFixedBodies | app/main.py:342-354 | the corrected chunking produces the same chunk texts; only the first is an edit |
| Listing.FixedShowsEverything | app/main.py:334-354 | with the correction, what is on screen reads back as the whole listing |

## Left out

- SFTP sessions, authentication and aiofiles I/O (utils/file_manager.py:13-65) are modelled as copies between two maps. Newline translation in text mode is left out: the text is taken as read.
- The HTTP profile lookups, retries and sleeps in utils/steam.py, the Discord embeds and replies of utils/responses.py, and utils/time.py are not part of this model. A reply is a value naming which message the bot sends, without its wording, colour or avatar.
- The bot's configuration loading, event handlers and `bot.run` are left out, as are the Discord parts of `has_any_role` and `check_channel`. `check_steamid` and `check_role` are modelled: as the `CleanSteamId64` test and the prohibited-role test at the start of the commands.
- `show_user` and `update_server_data` are left out: they only fetch and print what the modelled read operations return.
- In `show_users`, the entries (numbered Markdown links with profile names fetched over HTTP) are taken as given strings. The numbering from `enumerate` and the iteration order of `set(...)` and of the dictionary are presentation, and the listing is modelled as a set.
- Concurrency between commands is left out: the lost-update race between two fetch-mutate-push sequences cannot arise in a sequential model.
- Python's `\d`, `\D`, `\w` and `str.isdigit` are Unicode-aware; the model takes the ASCII digits and word characters.
- FileOperations.GetUsers: `get_users` iterates over file lines that keep their `\n`; the model matches on `text.split("\n")`. This is the same, since neither group can match a line break.
- Bot.GrantThenReadBack, Bot.GrantThenRevokeRestores and FileOperations.GetRoleAfterAddRole: proved only for a document with exactly one `Members:\n` header that does not mention the ID, and a role name without line breaks, backslash-n or the ID's marker.
- FileOperations.RemoveRoleAfterAddRole and FileOperations.GetUsersAfterAddRole: proved only for a document with exactly one `Members:\n` header that does not mention the ID; `GetUsersAfterAddRole` also only for a one-word role. With the entry already present, `add_role` writes a second copy and `remove_role` deletes both, so the round trip does not hold in general.
- Listing.PaginatedSpec: proved only for a non-empty header and non-empty entries, as `show_users` always builds them. The one-message branches hold unconditionally.
- Listing.FixedShowsEverything: proved under the same assumption about the header and the entries.
- FileOperations.AddRemoveDropsExistingMember and FileOperations.ReaddRemoveDropsLastLine: proved for a document whose only mention of the ID is one `\n<id>@steam` line at its end, not for every document that lists the ID. The general statement is false: a token on the first line has no line break before it and survives removal (`FileOperations.FirstLineTokenStays`).

## Findings

| source | as written | input that shows it | evidently intended | confidence | as-written member | corrected member |
|---|---|---|---|---|---|---|
| app/main.py:212 | `remove_role` deletes ` - <id>@steam: <role>` only together with a line break after it, so an entry on the last line without one is not deleted, though the reply says the role was removed | a role file ending in ` - 76561198000000000@steam: Admin` with no line break after it, where the ID occurs nowhere else | the entry is deleted, or the command reports that it could not delete it | not executed | Bot.RevokeOfUnterminatedEntry | Bot.RevokeSpecFixed |
| app/main.py:342-354 | every full chunk is sent by editing the command's original response, so each flush overwrites the one before | header `H` and two entries of 3998 `a` and a line break | the first chunk replaces the placeholder and later chunks are follow-up messages | not executed | Listing.EditsOverwriteChunks | Listing.FixedShowsEverything |
