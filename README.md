# Minecraft whitelist bot: a Dafny model of its list rules

The bot answers three chat commands with the game server's whitelist:
`whitelist <name>` adds a player, `unwhitelist <name>` removes one, and
`listwhitelist` prints the list. The list lives in `whitelist.json` as an
ordered array of `{uuid, name}` objects. Every command reloads the file.
A changed list is written back in full, and the server is then told to
reload it over its remote console (RCON). A check runs before each command
and lets through the guild owner, administrators and members of the role
`ADMIN_ROLE`.

This project models the parts of `main.py` that hold rules rather than I/O:

- `UuidFormat` covers the hyphenation in `get_minecraft_uuid`. A 32-character
  undashed id is cut into the 8-4-4-4-12 groups of section 3 of RFC 4122. The
  slices are clamped as Python's slicing clamps them, so the function is total.
  `Dehyphenate` is the positional inverse and `StripHyphens` deletes every '-'.
  The lemmas pair each of them with `Hyphenate`.
- `AllowList` covers the entries, the duplicate test (`any(...)`), the append
  of `whitelist_add` and the two filtering comprehensions of `whitelist_remove`.
  It also states the "at most one entry per uuid" invariant.
- `ListRendering` covers the reply of `whitelist_list`. `Split` is a reference
  reading of that reply, used to show it has one line per entry, in order.
- `Authorization` covers the decision made by `has_admin_role`'s predicate.
- `Commands` covers the three handlers. They are methods of a `WhitelistBot`
  whose state is the file's contents (`None` while the file does not exist)
  and the number of reload attempts. Every save makes one attempt, and an attempt
  whose connection fails still counts. The identity service's answer
  (`Option<Profile>`, `None` for any status other than 200) is an input. So is
  the RCON outcome (`Option<string>`, `None` when the connection fails);
  `ReloadReply` turns a failure into the fixed failure text. The reply texts
  are the handlers' f-strings, written out.

## Model

| member | source | states |
|---|---|---|
| `UuidFormat.Hyphenate` | main.py:31 | the five clamped slices joined by '-' add exactly four characters to an id of any length, so the uuid is never empty |
| `UuidFormat.HyphenateShape` | main.py:30-31 | for a 32-character id the result has length 36, '-' at 8, 13, 18 and 23, and the id's five groups in order between them |
| `UuidFormat.StripHyphenateRoundTrip` | main.py:30-31 | deleting the hyphens from the hyphenated form gives back any id that had no '-' |
| `UuidFormat.DehyphenateHyphenate` | main.py:31 | removing the four separator positions undoes hyphenation of a 32-character id |
| `UuidFormat.HyphenateDehyphenate` | main.py:31 | every 36-character string with '-' at 8, 13, 18 and 23 is the hyphenation of its separator-free form, so the mapping is a bijection |
| `UuidFormat.HyphenateIsDashedUuid` | main.py:29-31 | a 32-digit hexadecimal id becomes a well-formed 8-4-4-4-12 dashed uuid whose undashed form is again a 32-digit hex id |
| `UuidFormat.HyphenateGroups` | main.py:31 | an id given as groups of 8, 4, 4, 4 and 12 characters is hyphenated group by group |
| `Commands.Resolve` | main.py:23-33 | the lookup succeeds exactly when the service answered 200; the name is the service's canonical name; the uuid is `Hyphenate(id)`, four characters longer, stripped back to the id, and dashed-well-formed for a hex id |
| `AllowList.ContainsUuid` | main.py:98 | true exactly when some entry of the list has the uuid |
| `AllowList.AddEntry` | main.py:98-105 | the old entries stay in front, unchanged and in order; at most one entry is added, exactly when the uuid was missing, and it is the given entry with its canonical name; the uuid is listed afterwards |
| `AllowList.AddPresentIsNoOp` | main.py:98-100 | adding a uuid that one entry already has returns the list unchanged |
| `AllowList.AddAbsentAppends` | main.py:102-105 | adding a new uuid gives the old list, unchanged and in order, followed by exactly the one new entry |
| `AllowList.AddIdempotent` | main.py:97-105 | adding twice by the same uuid equals adding once, whatever name the second call carries |
| `AllowList.AddKeepsUnique` | main.py:97-105 | add keeps "at most one entry per uuid", and afterwards some entry has the uuid |
| `AllowList.Lower` | main.py:125 | the lower-cased name has the same length and lower-cases each character |
| `AllowList.LowerIdempotent` | main.py:125 | lower-casing twice equals lower-casing once |
| `AllowList.LowerEqualIff` | main.py:125 | two names match case-insensitively exactly when they have the same length and agree character by character up to case |
| `AllowList.RemoveMatching` | main.py:119-127 | the result holds no matching entry; it is never longer; its length equals the input's exactly when nothing matched |
| `AllowList.RemoveMembership` | main.py:122-125 | an entry is in the result of `RemoveMatching` exactly when it is in the input and does not match |
| `AllowList.Matching` | main.py:122-125 | the removed entries all match; there are none exactly when nothing matched |
| `AllowList.MatchingMembership` | main.py:122-125 | an entry is removed (is in `Matching`) exactly when it is in the input and matches |
| `AllowList.RemoveIsSubsequence` | main.py:122-125 | the kept entries keep their original relative order (the result is a subsequence of the input) |
| `AllowList.RemovePartition` | main.py:120-125 | kept entries plus removed entries, counted with repetition, make up the whole list |
| `AllowList.RemoveAppend` | main.py:122-125 | filtering a concatenation filters each part |
| `AllowList.RemoveNothing` | main.py:120-129 | when no entry matches, the filtered list equals the input |
| `AllowList.RemoveKeepsUnique` | main.py:120-125 | removal keeps "at most one entry per uuid" |
| `AllowList.RemoveUndoesAdd` | main.py:102-122 | removing by uuid right after adding a new uuid restores the original list |
| `ListRendering.Lines` | main.py:144 | one line per entry, in list order, each the f-string `Line` gives: `- {name} (UUID: {uuid})` |
| `ListRendering.ListReply` | main.py:140-145 | the reply is the fixed empty-list message exactly when the list is empty |
| `ListRendering.SplitJoin` | main.py:144 | joining separator-free lines with '\n' (`Join`, Python's `'\n'.join`) and splitting at '\n' gives the lines back |
| `ListRendering.ListReplyLines` | main.py:140-145 | a non-empty list with single-line fields renders as the header followed by exactly one line per entry, in list order |
| `ListRendering.LineIsSingle` | main.py:144 | a line holds no line break when neither the name nor the uuid does |
| `Authorization.FindRole` | main.py:67 | returns the first role with the name, and nothing exactly when no role has it |
| `Authorization.Authorize` | main.py:60-76 | owner or administrator is authorized with no notice; otherwise authorized exactly when the author holds the first `ADMIN_ROLE` role; a missing role always denies and posts the created or forbidden notice |
| `Commands.WhitelistBot.Save` | main.py:35-56 | the file is replaced by the whole list, so loading it afterwards (`LoadWhitelist`) gives exactly that list, because the model stores the file as the list itself; the reload-attempt count goes up by one, and the server's text, or the fixed failure text when the connection fails (`ReloadReply`), is returned |
| `Commands.WhitelistBot.WhitelistAdd` | main.py:84-108 | the list is loaded with `LoadWhitelist` (a missing file reads as the empty list); unknown player: reported, nothing changes; uuid already listed: reported, nothing saved; otherwise the file becomes the old list plus the one entry, one reload is attempted, and the reply names the player, the uuid and the server's answer; uniqueness by uuid is preserved |
| `Commands.WhitelistBot.WhitelistRemove` | main.py:110-132 | filters the list loaded with `LoadWhitelist` (a missing file reads as the empty list) by the resolved uuid, or by name up to case when the lookup failed (`RemoveCriterion`); no change in length means "not found", no save and no reload attempt; otherwise the filtered list is saved and the reply names the canonical name unless it is empty (`RemovedName`, Python's `correct_username or minecraft_username`); uniqueness is preserved |
| `Commands.WhitelistBot.WhitelistList` | main.py:134-145 | the reply is the rendering of the list loaded with `LoadWhitelist` (a missing file reads as the empty list), and nothing is written |

## Left out

- Chat-platform plumbing is not modelled: bot construction, `on_ready`, `ctx.send` and `on_command_error` (main.py:21, 79-82, 147-157). Neither is the `commands.check` wiring that runs the authorization predicate before a handler. The three handler methods are the bodies that run once the check has passed.
- The HTTP request to the identity service (main.py:25-28) is a network call. Its outcome is the `Option<Profile>` input. `get_minecraft_uuid` does not catch exceptions from the HTTP client; they reach `on_command_error`'s generic reply (main.py:153-154) and are not modelled. Neither is an answer without `id` or `name`.
- The RCON client (main.py:37-42) is a foreign protocol client. Its outcome is the `Option<string>` input.
- JSON reading and writing (main.py:46-50, 54-56) are library serialisation and file access. The file is an `Option<seq<Entry>>`. A missing file loads as the empty list, as in the code. A malformed file, an object without `uuid` or `name`, and write failures raise exceptions in the code; they are not modelled. The serialise/deserialise round trip belongs to the JSON library and is not modelled either.
- Role creation (main.py:70-73) is a platform call. Only its consequence is modelled: a denial plus the "created" or "forbidden" notice. The new role is not added to the modelled guild. Errors from the call other than the permission refusal are not modelled.
- Interleaving of concurrent commands at `await` points is left out, including the lost-update race between two mutating commands.
- `AllowList.Lower`: lower-cases ASCII letters only, because Unicode case mapping (Python's `str.lower()`) is not modelled. Names that differ only in non-ASCII case do not match in the model.
