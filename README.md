# DiscordBot interaction dispatcher — a Dafny model

This project models the one piece of original logic in the `DiscordBot` cog:
the dispatcher that routes Discord component interactions (button clicks and
select-list changes) to handlers registered under a custom-id key, plus the
rule by which `send_message` composes a message's text.

- `text.dfy` (module `Text`): Python's substring test, `str.replace`,
  `str.split` with an explicit separator and `str.join`, as recursive
  functions with lemmas that tie them together (`join` inverts `split`;
  `replace` is `rep.join(s.split(pat))`; for a one-character separator
  `split` also inverts `join`).
- `dispatch.dfy` (module `Dispatch`): the registry as a value (a map plus
  the dict's insertion order), registration, the selection of the first
  matching key, argument parsing and the routing of `on_interaction`.
  Handlers are opaque values; dispatch returns `NoOp`, `NoMatch` (the error
  is logged) or `Invoke(handler, args)`.
- `discord_bot.dfy` (module `Bot`): the cog as a class whose fields are the
  registry, a constructor that leaves it empty, `RegistEvent` that updates
  it in place, and the listeners as functions that read it and so cannot
  change it.
- `message.dfy` (module `Message`): the `content` expression of
  `send_message` and its inverse.

Three behaviours of the code are easy to misread:

- The code removes EVERY occurrence of the key followed by `_` from the
  custom id (`str.replace` replaces all non-overlapping occurrences, left
  to right), not only the first one
  (`Dispatch.ExampleEveryOccurrenceRemoved`).
- When several registered keys occur in the custom id, the code's choice is
  not arbitrary: the filtered dict keeps insertion order, so the key
  registered first wins, even over a longer, more specific key
  (`Dispatch.ExampleFirstRegisteredWins`). Re-registering a key keeps its
  original position.
- Any component type other than 2 and 3 is ignored as silently as a missing
  one, and a payload with a component type 2 or 3 but no `custom_id` raises
  a `KeyError` that the same handler swallows, so it is a no-op too.

## Model

| member | source | states |
|---|---|---|
| Bot.DiscordBot.constructor | src/discord_bot/discord_bot.py:25-34 | a new cog's registry is empty and satisfies the registry invariant |
| Bot.DiscordBot.RegistEvent | src/discord_bot/discord_bot.py:180-190 | the new registry is the old one with the key registered (see `Dispatch.Register`), and the invariant is kept |
| Bot.DiscordBot.OnButtonClick | src/discord_bot/discord_bot.py:124-143 | the outcome is that of dispatch on the current registry; being a function it leaves the registry unchanged |
| Bot.DiscordBot.OnListChange | src/discord_bot/discord_bot.py:145-152 | a select-list change has exactly the outcome of a button click on the same custom id |
| Bot.DiscordBot.OnInteraction | src/discord_bot/discord_bot.py:101-122 | the listener's outcome is the routing of `Dispatch.OnInteraction` on the current registry, which it does not change |
| Bot.ReRegisteredClick | src/discord_bot/discord_bot.py:113-118 | with H1 then H2 registered under "abc", a click on "abc_1-2-3" invokes H2 with ["1", "2", "3"] and a select change on it has the same outcome |
| Dispatch.EmptyRegistry | src/discord_bot/discord_bot.py:34 | the initial registry holds no key and satisfies the invariant |
| Dispatch.Register | src/discord_bot/discord_bot.py:190 | the key maps to the new handler, every other key keeps its presence and handler, every existing key keeps its position, a new key is appended; the invariant is kept |
| Dispatch.RegisterLastWriteWins | src/discord_bot/discord_bot.py:190 | registering a key twice equals registering only the second handler |
| Dispatch.Matches | src/discord_bot/discord_bot.py:133 | the kept keys are exactly the registered keys that occur in the custom id, and the first kept key is the first such key in iteration order |
| Dispatch.MatchesAppend | src/discord_bot/discord_bot.py:133 | filtering keys with one appended key filters the old keys, then that key |
| Dispatch.Args | src/discord_bot/discord_bot.py:137-138 | the argument list is never empty and joining it with "-" gives the custom id with every key-plus-underscore removed |
| Dispatch.ArgsArePieces | src/discord_bot/discord_bot.py:138 | no argument contains "-", and splitting the joined arguments gives them back |
| Dispatch.ArgsWithoutKeyPrefix | src/discord_bot/discord_bot.py:137 | the remainder equals the whole custom id if and only if the key followed by "_" does not occur in it; then the arguments are the custom id split at "-" |
| Dispatch.ArgsAfterKey | src/discord_bot/discord_bot.py:137-138 | for a custom id of the key, "_" and a rest without further key-plus-underscore, the arguments are the "-"-free pieces that join to the rest |
| Dispatch.OnButtonClick | src/discord_bot/discord_bot.py:132-143 | never a no-op; no handler (error logged) exactly when no registered key occurs in the custom id; otherwise the handler stored under the first matching key in insertion order, with that key's arguments |
| Dispatch.OnListChange | src/discord_bot/discord_bot.py:145-152 | a select-list change is dispatched exactly as a button click |
| Dispatch.OnInteraction | src/discord_bot/discord_bot.py:112-122 | a no-op exactly when the component type is neither 2 nor 3 or the custom id is missing; otherwise the button-click dispatch of the custom id |
| Dispatch.ButtonAndSelectAgree | src/discord_bot/discord_bot.py:113-118 | component types 2 and 3 give the same outcome for every payload |
| Dispatch.FirstMatchUnique | src/discord_bot/discord_bot.py:137 | the selected key is determined: at most one index is the first match |
| Dispatch.RegisterUnmatchedKey | src/discord_bot/discord_bot.py:133 | registering a key that does not occur in a custom id leaves that id's dispatch unchanged |
| Dispatch.RegisterNewKeyGoesLast | src/discord_bot/discord_bot.py:133 | a newly registered key never displaces an earlier registered key that already matches |
| Dispatch.RegisterOnlyMatch | src/discord_bot/discord_bot.py:141 | when the registered key is the only one occurring in the custom id, its new handler is invoked with that key's arguments |
| Dispatch.ExampleExactMatch | src/discord_bot/discord_bot.py:137-141 | key "abc" and custom id "abc_1-2-3" invoke the handler with ["1", "2", "3"] |
| Dispatch.ExampleEmptyPieces | src/discord_bot/discord_bot.py:138 | "abc_-2-" yields ["", "2", ""]: empty pieces are kept |
| Dispatch.ExampleBareKey | src/discord_bot/discord_bot.py:137 | custom id "abc" with key "abc" yields ["abc"] |
| Dispatch.ExampleEveryOccurrenceRemoved | src/discord_bot/discord_bot.py:137 | "abc_x-abc_y" with key "abc" yields ["x", "y"] |
| Dispatch.ExampleNoMatch | src/discord_bot/discord_bot.py:142-143 | "xyz_1" finds no handler in an empty registry nor in one holding only "abc" |
| Dispatch.ExampleReRegister | src/discord_bot/discord_bot.py:190 | H1 then H2 under "abc": "abc_1-2-3" invokes H2 |
| Dispatch.ExampleFirstRegisteredWins | src/discord_bot/discord_bot.py:133-141 | with "ab" registered before "abc", "abc_1" invokes the "ab" handler with ["abc_1"] |
| Message.Content | src/discord_bot/discord_bot.py:52-54 | without a mention the content is the body; with one it starts with the mention and " \n"; the body follows the prefix; its length is prefix, body and (for a non-empty body only) the auto-reply suffix |
| Message.BodyOfContent | src/discord_bot/discord_bot.py:17-22 | the body can be recovered from the content and the mention |
| Text.Contains | src/discord_bot/discord_bot.py:133 | a string occurs only in one at least as long |
| Text.ContainsIffOccurs | src/discord_bot/discord_bot.py:133 | the substring test holds exactly when the pattern sits at some index |
| Text.ContainsHead | src/discord_bot/discord_bot.py:133 | an occurring pattern's first character occurs |
| Text.ContainsChar | src/discord_bot/discord_bot.py:138 | a one-character pattern occurs exactly when the character does |
| Text.Split | src/discord_bot/discord_bot.py:138 | the pieces are never empty as a list, the first is a prefix of the input, and none contains the separator |
| Text.JoinConsFirst | src/discord_bot/discord_bot.py:138 | a character put before the first piece comes first in the join |
| Text.JoinSplit | src/discord_bot/discord_bot.py:138 | joining the pieces with the separator gives the input back |
| Text.SplitWithoutSep | src/discord_bot/discord_bot.py:138 | a string without the separator character splits into itself |
| Text.SplitAfterFirstSep | src/discord_bot/discord_bot.py:138 | a separator-free piece, the separator and a tail split into that piece followed by the tail's pieces |
| Text.SplitJoinChar | src/discord_bot/discord_bot.py:138 | for a one-character separator, splitting the join of separator-free pieces gives the pieces back |
| Text.ReplaceAll | src/discord_bot/discord_bot.py:137 | replacing by a string no longer than the pattern (removal, as at this line) never lengthens the input |
| Text.ReplaceAllFirstOccurrence | src/discord_bot/discord_bot.py:137 | the leftmost occurrence is replaced first and the scan resumes right after it, so matches never overlap (e.g. key "_a" on "_a_a_" gives "a_") |
| Text.ExampleNoOverlap | src/discord_bot/discord_bot.py:137 | removing "_a_" (key "_a") from "_a_a_" gives "a_": the leftmost of two overlapping candidates wins |
| Text.ReplaceAllAtPattern | src/discord_bot/discord_bot.py:137 | a leading occurrence of the pattern is replaced |
| Text.ReplaceAllAtOther | src/discord_bot/discord_bot.py:137 | a leading character that does not start the pattern is kept |
| Text.ReplaceAllIsJoinOfSplit | src/discord_bot/discord_bot.py:137 | replacing equals joining with the replacement the pieces split at the pattern |
| Text.ReplaceAllAbsent | src/discord_bot/discord_bot.py:137 | without an occurrence of the pattern the string is unchanged |
| Text.RemoveAllLength | src/discord_bot/discord_bot.py:137 | removing a pattern never lengthens the string and shortens it when the pattern occurs |
| Text.RemoveAllUnchangedIff | src/discord_bot/discord_bot.py:137 | removing a pattern leaves the string unchanged if and only if the pattern does not occur |

## Left out

- The Discord client and `commands.Cog` plumbing: client construction, the listener decorators, `channel.send` with its view, embeds and `delete_after`. `send_message` is modelled only as the text it passes as `content`.
- Async execution and handler bodies: a handler is an opaque value that dispatch selects together with its arguments; it is never run. A `KeyError` raised inside a handler is also swallowed by `on_interaction`; that exception flow is not modelled.
- Logging: the error logged when nothing matches is the `NoMatch` outcome; the debug and info logs are not modelled.
- `get_role` and `get_channel`: thin lookups in the Discord guild after Python `int()` parsing, both outside this model.
- `on_ready`, `on_member_join`, `on_message`: stubs that only log or do nothing.
- `examples/run.py`: start-up glue (environment loading, intents, `asyncio.run`).
- Payload values are typed here: `component_type` as an integer and `custom_id`, mention and message as strings; Python's comparisons and `str.format` on other types are not modelled.
