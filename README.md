# obsidian-memonote: the comment panel's extraction and the plugin settings

A Dafny model of the logic in the MemoNote plugin's `main.ts`.

When the comment side panel opens, it reads the active note and finds the
first highlight that is followed by a footnote reference. That is the leftmost
match of `/==([^=]+)==\s+\[\^([^\]]+)\]/`. The panel trims the two groups to get
the highlighted text and the footnote id. It then looks up the first footnote
definition `[^id]:` and takes the trimmed text after the following white space,
up to the end of the line. When there is no such definition, the comment is
empty and a notice tells the user the footnote is missing.

The plugin object keeps a `settings` object. Loading it copies the defaults and
then the stored data into a fresh object. The settings tab's text field writes
the one setting, `mySetting`, and saves.

Modules:

- `Wrappers`: `Option`.
- `JsText`: the parts of ECMAScript string and regex semantics used here:
  - `\s` and the line terminators that `.` refuses;
  - greedy runs of one character class (`SkipWhile`);
  - literal search (`SearchEnd`, the leftmost occurrence);
  - `String.prototype.trim` (`Trim`), with its lemmas.
- `CommentPanel`: the extraction, as pure functions and lemmas.
  - `MatchAt` is the highlight regex at one start index.
  - `FirstMatchFrom` is `String.prototype.match`, taking the smallest start index.
  - `FindDef` is the footnote lookup.
  - `Extract` is the whole panel computation. Its result is `NotFound` or
    `Found(highlighted, id, comment, footnoteMissing)`.
  - The regex meaning is stated independently by `PatternAt` ("some split of
    the text into `==`, a non-empty run without `=`, `==`, non-empty white
    space, `[^`, a non-empty run without `]`, `]`") and by `DefinitionAt` and
    `RestIs` for the footnote. The lemmas connect the scanners to these
    declarative descriptions.
- `PanelExamples`: concrete notes and what the panel shows for them.
- `PluginSettings`: the settings merge as a function on maps, and a class
  `MyPlugin` with a `settings` field for load, save and the change handler.

The model follows the code where it departs from the usual Markdown footnote
convention:

- A footnote definition is normally a line that starts with `[^id]:`. The code
  finds the marker anywhere, even in the middle of a line. Its `\s*` also
  crosses line breaks, so an empty definition takes the text of the next
  non-blank line (see `ExampleDefinitionOnNextLine`).
- A footnote reference is normally written right after the text it annotates.
  The highlight regex's `\s+` needs at least one white-space character between
  the closing `==` and `[^`, so `==hi==[^a]` has no highlight (see
  `ExampleNoGap`).

## Model

| member | source | states |
|---|---|---|
| CommentPanel.Extract | main.ts:147-166 | When found: the highlighted text has no `=`, the id has no `]`, and both are trimmed. The comment is trimmed and on one line. The footnote is flagged missing exactly when the lookup for the reported id fails. The comment is the lookup's result, or "" when it fails. |
| CommentPanel.ExtractNotFoundIff | main.ts:149-154 | The result is "not found" if and only if the highlight regex matches at no index of the note. |
| CommentPanel.ExtractLeftmost | main.ts:149-166 | When the leftmost match starts at `i` with groups `g1`, `ws`, `g2`, the result is exactly `Found(trim(g1), trim(g2), comment, missing)`, whatever follows. The comment is the footnote lookup's text for `trim(g2)` ("" when it fails), and `missing` holds exactly when it fails. |
| CommentPanel.ExtractLeftmostTrimmed | main.ts:149-166 | The same for groups that are already trimmed: the result is `Found(g1, g2, …)` with the groups themselves. |
| CommentPanel.ExtractAtStart | main.ts:149-163 | A note that starts with a highlight whose footnote is defined yields exactly `Found(g1, g2, body, false)`. |
| CommentPanel.ExtractFootnoteMissing | main.ts:159-166 | The footnote is reported missing exactly when no `[^id]:` marker for the reported id occurs anywhere, and then the comment is empty. |
| CommentPanel.NoSpaceNotFound | main.ts:149 | A note without any white-space character never matches, because `\s+` needs at least one. |
| CommentPanel.MatchAtIff | main.ts:149 | The scanner `MatchAt` succeeds at `i` if and only if the regex can match at `i`, in the declarative sense of `PatternAt`. |
| CommentPanel.MatchAtSound | main.ts:149 | The groups `MatchAt` returns fit their classes and lie one after another in the note, forming the matched text. |
| CommentPanel.MatchAtComplete | main.ts:149 | For any split of the text at `i` into fitting parts, `MatchAt` returns exactly those parts, so the match at a given index is unique. |
| CommentPanel.FirstMatchFrom | main.ts:150 | A result is a match at its index, and no index between `from` and it matches. No result means no index at or after `from` matches. |
| CommentPanel.FirstMatchAt | main.ts:150 | If `i` matches and no earlier index at or after `from` does, the search returns the match at `i`. |
| CommentPanel.DefinitionText | main.ts:159 | Group 1 of `\s*(.*)` contains no line terminator and does not start with white space. |
| CommentPanel.DefinitionTextExact | main.ts:159 | Any white-space run and line text that `RestIs` describes after the marker are exactly what `DefinitionText` takes. |
| CommentPanel.DefinitionTextShape | main.ts:159 | What `DefinitionText` takes always has the shape `RestIs` describes: greedy white space, then the rest of that line. |
| CommentPanel.CommentAt | main.ts:163 | The trimmed group is trimmed and has no line terminator. |
| CommentPanel.DefinitionAfter | main.ts:159-160 | None if and only if the marker occurs nowhere. Otherwise the text is trimmed and on one line. |
| CommentPanel.FindDef | main.ts:159-163 | None if and only if `[^id]:` occurs nowhere in the note. A found comment is trimmed and contains no line terminator. |
| CommentPanel.DefinitionAfterFirst | main.ts:159-163 | The first occurrence of the marker decides the trimmed text. |
| CommentPanel.FindDefFirst | main.ts:159-163 | When the first `[^id]:` is at `k`, followed by the white space `ws` and the line text `body`, the comment is `trim(body)`. Later definitions are ignored. |
| CommentPanel.FindDefFirstTrimmed | main.ts:159-163 | The same for an already trimmed body: the comment is the body itself. |
| JsText.SkipWhileRun | main.ts:149 | A greedy run covers only characters of its class and stops at the end or before a character outside the class. |
| JsText.SkipWhileUnique | main.ts:149 | A run with those two properties is the one the greedy scan takes. |
| JsText.SearchEndLeast | main.ts:160 | Literal search finds an occurrence, and no earlier one exists from `from`. No result means no occurrence at or after `from`. |
| JsText.SearchEndFirst | main.ts:160 | The first occurrence of the text is the one the search reports. |
| JsText.Trim | main.ts:155-156 | The result neither starts nor ends with white space and only has characters of the input. |
| JsText.TrimSplit | main.ts:155-156 | Trimming only removes white space, at both ends. |
| JsText.TrimPadded | main.ts:163 | Trimming trimmed text padded with white space gives back the text. |
| JsText.TrimIdempotent | main.ts:155-156 | Trimming twice is the same as trimming once. |
| JsText.TrimTrimmed | main.ts:155-156 | Trimming already trimmed text changes nothing. |
| PanelExamples.ExampleWithFootnote | main.ts:149-163 | `==hi== [^a]\n[^a]: ok` shows `hi` with the comment `ok`, and no notice. |
| PanelExamples.ExampleFootnoteText | main.ts:159-163 | In that note the lookup for `a` gives `ok`. |
| PanelExamples.ExampleMissingFootnote | main.ts:159-166 | `==hi== [^x]` shows `hi` with an empty comment and the missing-footnote notice. |
| PanelExamples.ExampleNoGap | main.ts:149 | `==hi==[^a]` is not found. |
| PanelExamples.ExampleDefinitionOnNextLine | main.ts:159 | For `[^a]:\nnext`, the lookup for `a` gives `next`. |
| PluginSettings.Merge | main.ts:121 | The keys are those of the defaults and of the loaded data. A loaded value wins. A key only in the defaults keeps its default. |
| PluginSettings.LoadNothing | main.ts:9-11 | With no stored data, the settings are exactly the defaults. |
| PluginSettings.LoadHasDefaults | main.ts:121 | After any load, every default key is present. |
| PluginSettings.ReloadSaved | main.ts:121-126 | Loading saved settings gives them back if and only if they hold every default key. |
| PluginSettings.LoadIdempotent | main.ts:121 | Loading the result of a load again changes nothing. |
| PluginSettings.EditThenReload | main.ts:233-235 | After the change handler's edit, saving and loading again yields the edited settings. |
| PluginSettings.MyPlugin.constructor | main.ts:16-17 | At start-up the settings are the defaults merged with the stored data. |
| PluginSettings.MyPlugin.LoadSettings | main.ts:120-122 | The settings become the defaults merged with the stored data, and every default key is present. |
| PluginSettings.MyPlugin.SaveSettings | main.ts:124-126 | The object handed to storage is the current settings, and loading it back gives the settings again exactly when every default key is present. Nothing changes. |
| PluginSettings.MyPlugin.SetMySetting | main.ts:233-235 | `mySetting` becomes the typed value. Every other key keeps its value, the default keys stay present, and the saved object is the new settings. |

## Left out

- DOM work: emptying the container, the placeholder and empty-state messages, and the two boxes with their styles. This is host presentation; `Extract`'s result is what those boxes would show.
- Reading the active file is asynchronous host I/O. The note's text is a parameter. The "no active file" placeholder is not modelled, because the model starts from the text.
- The `Notice` for a missing footnote is the `footnoteMissing` flag of the result.
- Ribbon icon, status bar, commands, editor menu, DOM event and interval registration, the sample modal, and the settings tab's layout are framework wiring without logic.
- `loadData` and `saveData` persistence belong to the host. Stored data is a parameter (`None` for `null` or `undefined`), and saving returns the object that would be stored. A store/load round-trip holds only if the host stores faithfully, as `ReloadSaved` assumes.
- The `async` and `await` ordering of load, save and the change handler is not modelled.
- `FindDef`: the id is taken as literal text. The source interpolates it into a regex unescaped, so an id with regex metacharacters would be read as a pattern, or would throw on an invalid one.
- Strings are sequences of Unicode scalar values, not UTF-16 code units. Astral characters count as one character, and lone surrogates cannot appear.
- `JsText.IsSpace`: the white-space set is fixed at the one in current Unicode versions (no U+180E). An engine with different Unicode data could differ.
- `PluginSettings.Merge`: setting values are strings, and loaded data is a string map. Non-object JSON values, and properties of other types, are not modelled.
- The line counter and the highlight and footnote counters do not exist in `main.ts`, so they are not part of this model.
