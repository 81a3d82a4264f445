# Channel directory bot — verified model of its core

`bot.py` is a Telegram bot that keeps a directory of channels in one SQLite
table. It offers three features:

- Subscribers of the bot's own channel add a channel with
  `/add <link> | <name> | <description> | <category> | <subscribers>`.
- Anyone can browse the directory by category through inline buttons.
- The membership check gates `/add` and the `/start` menu; button presses are never checked.

This project models the parts of that script that are plain logic, and proves what
they guarantee:

- **The `/add` pipeline** (`AddCommand`):
  - Steps, in order: the membership gate; `text.replace('/add ', '')`; `split('|')`; `strip()` on each piece; exactly five fields; `int()` on the fifth; the category checked against the twelve labels; the insert.
  - Each way the command can end is one constructor of `AddOutcome`.
  - `HandleAdd` is the stateful handler over the table.
- **The `channels` table** (`Channels`):
  - A class holding the rows and the id the next insert receives.
  - `Insert` is `add_channel_db`. `ChannelsByCategory` is `SELECT … WHERE category=? ORDER BY id DESC LIMIT 20`.
- **Button handling** (`Browse`):
  - The dispatch over the callback payload.
  - The loop that builds the category menu.
  - The loop that renders a category's listing, as the exact message string: header, then up to ten blocks, each with the description cut to 50 characters and followed by `...`.
- **The membership test** (`Subscription`): `creator`, `administrator` and `member` pass; every other status, and a lookup that raised, fail.
- **The Python string operations these rely on** (`Text`, with `Sequences` for generic facts about `+=`-built text): `str.replace(p, '')`, `str.split(c)`, `str.strip()`, `str.startswith`, `int(str)` and `str(int)`, on Unicode strings.

Four behaviours of the code are easy to misread; the model follows the code:

- **`/add ` is deleted everywhere.** The command text is deleted wherever it occurs (`replace`), not only as a leading prefix. A description that mentions `/add ` therefore loses it (`CommandTextRemovedEverywhere`).
- **A `cat_` payload keeps nothing of `cat_`.** The category it lists is the payload with every `cat_` deleted, and it is never checked against the labels (`CategoryNotValidated`).
- **Some numbers are refused by the insert.** A subscriber count or user id outside SQLite's signed 64-bit INTEGER range makes the `sqlite3` binding raise. `add_channel_db` turns that into `False`, so the user sees "already exists". `Insert` models this with `FitsInteger`.
- **Ids run 1, 2, 3, ….** No row is ever deleted, so SQLite's INTEGER PRIMARY KEY gives each insert one more than the largest id, starting from 1. A refused insert uses up no id.

The round trip of the template shown to users needs a side condition on every field (`PlainField`):

- no `|`;
- no surrounding whitespace;
- no `/add `, not even one completed by the space the template puts after the field (a field ending in `/add` would otherwise lose that ending).

## Model

| member | source | states |
|---|---|---|
| Subscription.IsSubscribed | bot.py:56-61 | the gate is open exactly for a lookup that returned creator, administrator or member; a failed lookup (None) closes it |
| Subscription.GateFailsClosed | bot.py:59-61 | restricted, left and kicked users, and a failed lookup, are all refused |
| Categories.LabelsAreArabic | bot.py:24 | every one of the twelve labels is written in Arabic script, so none contains a slash, the field separator, an underscore or a Latin letter |
| Channels.InCategoryNewestFirst | bot.py:51 | the WHERE/ORDER BY part of the query: exactly the rows of the category, and in strictly decreasing id order when the table's ids ascend |
| Channels.ChannelTable.constructor | bot.py:27-34 | `init_db` on a fresh database file creates an empty table whose first insert gets id 1 |
| Channels.ChannelTable.Insert | bot.py:30-46 | the insert succeeds exactly when the link is new and both numbers fit an SQLite INTEGER; on success exactly one row is appended, carrying the given values and an id larger than every earlier id, and the earlier rows are untouched; on failure nothing changes; links stay unique and ids stay 1..n |
| Channels.ChannelTable.ChannelsByCategory | bot.py:48-54 | at most 20 rows, all of the requested category and present in the table, in strictly decreasing id order; every matching row left out is older than every row returned; fewer than 20 rows means none was left out |
| Channels.NewestKept | bot.py:51 | the LIMIT keeps a prefix of the newest-first list, so what it drops is older than what it keeps |
| Channels.NewestListedFirst | bot.py:48-54 | the row the latest insert appended is the first row of its category's listing |
| Text.RemoveAll | bot.py:140 | `replace(pat, '')` never lengthens the text |
| Text.RemoveAllAbsent | bot.py:140 | text with no occurrence of the pattern is returned unchanged |
| Text.RemoveAllSkip | bot.py:140 | a stretch without the pattern's first character passes through `replace` untouched |
| Text.Split | bot.py:141 | splitting on the field separator gives one more piece than there are separators, and no piece contains the separator |
| Text.SplitJoin | bot.py:141 | splitting the join of separator-free pieces gives the pieces back |
| Text.JoinSplit | bot.py:141 | joining the pieces of a split gives the text back |
| Text.Strip | bot.py:141 | `strip()` never lengthens, leaves no whitespace at either end, and leaves an already trimmed string alone |
| Text.StripIsSlice | bot.py:141 | `strip()` removes whitespace at the two ends and nothing else: the result is a contiguous slice of the input with only whitespace before and after it |
| Text.StripFixpoint | bot.py:141 | a string is its own strip exactly when neither end is whitespace |
| Text.ParseInt | bot.py:148 | `int()` succeeds exactly on optional surrounding whitespace, an optional `+` or `-` and one or more decimal digits (leading zeros allowed), and the value is the digits' decimal value, negated after `-` |
| Text.ParseIntToString | bot.py:148 | `int(str(n)) == n` for every integer of at most 4300 digits, the limit CPython puts on `int()` and `str()` |
| AddCommand.Fields | bot.py:140-141 | one field per separator-delimited piece of the text after deleting `/add `, empty fields kept, each free of the separator and trimmed |
| AddCommand.ParseSubmission | bot.py:139-152 | the checks in the handler's order: FormatError exactly when the field count is not 5; ParseError exactly when there are 5 fields and the fifth is not an integer, whatever the category; BadCategory exactly when the integer parses and the category is not a label; otherwise a submission holding the five fields with the fifth read as an integer |
| AddCommand.HandleAdd | bot.py:132-160 | not subscribed gives NotSubscribed and leaves the table unchanged; a parse failure gives that error and leaves the table unchanged; a valid submission makes exactly one insert of the parsed row, replying Added(name, category) when it went through and AlreadyExists, with the table unchanged, when it did not; a table whose rows all carry one of the twelve labels still does afterwards |
| AddCommand.TemplateFields | bot.py:140-141 | a command written as the template lays it out (`/add ` then the plain fields joined by space-bar-space) splits back into exactly those fields |
| AddCommand.TemplateRoundTrip | bot.py:140-150 | the template filled with plain fields a, b, c, d and `str(n)` parses back to exactly (a, b, c, d, n), and is refused only with BadCategory when d is not a label |
| AddCommand.TemplateWrongCount | bot.py:143-145 | any other number of plain fields is a FormatError |
| AddCommand.DocumentedExample | bot.py:116-118 | the example printed in the add instructions is accepted as the submission it spells out |
| AddCommand.CommandRemovedTwice | bot.py:140 | both occurrences of `/add ` are deleted, the second one inside the text as well |
| AddCommand.CommandTextRemovedEverywhere | bot.py:140-141 | in the command `/add l`, `n`, `a /add b`, `c`, `k` (fields joined by the separator bar) the description is read as `a b`: an `/add ` inside a field disappears |
| Browse.Route | bot.py:90-130 | the dispatch order: `browse` lists the menu; any payload starting with `cat_` lists the payload with every `cat_` deleted; `add`, `help` and `back` go to the add instructions, the help text and the start screen; every other payload does nothing |
| Browse.BrowseKeyboard | bot.py:91-94 | the menu has one button per label plus the back button |
| Browse.CategoryMenu | bot.py:91-94 | the loop builds exactly the menu: the twelve category buttons in label order, then back |
| Browse.CategoryPayloadRoundTrip | bot.py:93-98 | a category button's payload routes back to its category |
| Browse.MenuButtonsRoute | bot.py:91-98 | every button of the menu routes to what it shows: the i-th to the i-th label, the last to back |
| Browse.CategoryNotValidated | bot.py:97-99 | any `cat_` payload routes to a listing, label or not, and `cat_cat_x` lists x |
| Browse.Preview | bot.py:107 | `description[:50]` is a prefix of the description of length min(50, length) |
| Browse.BlocksAppend | bot.py:106-107 | the blocks of a batch of rows followed by the blocks of the next batch are the blocks of both batches together: each block depends on its own row only |
| Browse.ShownCount | bot.py:106 | `channels[:10]` shows min(10, n) rows |
| Browse.RenderCategory | bot.py:101-110 | the loop produces the empty notice for no rows, and otherwise the header followed by the blocks of the first ten rows, with a button back to the menu |
| Browse.ListingIgnoresLaterRows | bot.py:106 | rows beyond the tenth make no difference to the page |
| Browse.ListingShowsRowsInOrder | bot.py:105-107 | the i-th shown row's block stands after the blocks of the rows before it and before those of the rows after it |
| Browse.HandleCallback | bot.py:86-130 | each routed action gives its reply; a category payload queries the table and renders that result, and the table is only read |
| Browse.UnknownCategoryIsEmpty | bot.py:97-103 | on a table whose rows all carry labels, a `cat_` payload naming no label shows the empty-state notice |

## Left out

- Telegram calls are not modelled: `get_chat_member`, `reply_text`, `edit_message_text`, `query.answer`, URL buttons. The membership lookup's result is a parameter (`Option<string>`, None for a lookup that raised). A reply is an abstract outcome, except the listing page and the category menu, which are built exactly.
- The `/start` handler, the help text and the add instructions are not modelled; they are just text. `back`, `help` and `add` are routed to the abstract replies StartScreen, HelpText and AddInstructions. For a button press `update.message` is None, so `start` stops with an AttributeError at `update.message.reply_text` (bot.py:68 or bot.py:79) before any reply; the user never sees the start screen. The model records only that `back` dispatches to `start`.
- `async`/`await`, the polling loop and `main` are framework plumbing and are not modelled.
- Environment variables, `exit(1)` and logging are process I/O and are not modelled.
- SQLite connection, cursor and commit handling, and storage failures such as a locked or full disk, are not modelled. The code cannot observe them apart from the `False` they produce.
- The error text `str(e)` of the generic `except` is not modelled: ParseError stands for that reply. Exceptions from the Telegram calls inside the `try` are not modelled.
- Text.ParseInt: accepts only an optional sign and ASCII digits. Python's `int()` also accepts `_` between digits and non-ASCII decimal digits. In the other direction the model accepts what `int()` refuses: characters U+001C–U+001F around the digits (the model trims with `strip()`'s whitespace set, which is wider than `int()`'s) and numerals of more than 4300 digits. Neither reaches bot.py:148: the field is already trimmed at bot.py:141, and a Telegram message holds at most 4096 characters.
- Text.Strip: removes only the ASCII whitespace `str.strip()` removes: characters 9–13 and 28–32. Unicode spaces such as U+00A0 are left in place.
- Channels.ChannelTable.constructor: the model starts from an empty database file. A restarted bot resumes with the rows it stored before (`CREATE TABLE IF NOT EXISTS`); those rows were built by the same inserts, so `Valid()` holds for them too, but the restart itself is not modelled.
- Channels.ChannelTable.Insert: ids are unbounded integers. SQLite's behaviour once the largest id reaches 2^63 − 1 is not modelled.
- Browse.RenderCategory: the message text is built exactly, but Telegram's message-length limit and `disable_web_page_preview` are not modelled.
