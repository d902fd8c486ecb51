# ctx-tool: Markdown index and `@` link completion, in Dafny

This project models the logic of the ctx-tool editor extension
(`src/extension.ts`). The extension keeps an in-memory index of the
workspace's Markdown files. When the user types `@` (or `!@`) in a Markdown
document, it offers one completion item per matching file, and each item
inserts a link to that file relative to the edited document.

The model has six modules:

- `Seqs` (seqs.dfy): the `Option` type the other modules share for
  `undefined`, the ordered filter (`Array.prototype.filter`) that both index
  removal and candidate selection use, and an order-preserving subsequence
  relation.
- `Strings` (strings.dfy): `toPosix`, `basename` and `stripMdExt`, and the
  JavaScript string operations they and the resolver use (`slice`,
  `toLowerCase`, `includes`, `startsWith`, `endsWith`).
- `Host` (host.dfy): what the editor hands in. A URI is a record of its
  `toString()` text, its scheme and its file-system path. `path.dirname`,
  `path.relative` and `asRelativePath` are given functions. No definition of
  the model assumes anything about them; the same-directory example lemma
  `Links.SameDirectoryLink` takes the result of `path.relative` as a
  hypothesis.
- `Links` (links.dfy): `buildMarkdownLinkRelativeToDoc`. It comes with a
  parser for the link shape it produces, and two round-trip lemmas show the
  parser is its inverse. The parser takes any url, spaces included, so these
  lemmas say nothing about whether a Markdown reader sees a link.
- `MdIndexing` (md_index.dfy): the datatype `MdEntry` (the record declared
  at src/extension.ts:5-11) and the index.
  - The index is the class `MdIndex`. Its field `entries` is the
    module-level `mdIndex` array.
  - `Remove`, `Add`, `Change` and `Refresh` are `removeFromIndex`,
    `addToIndex`, the watcher's change handler and `refreshIndex`.
  - The class invariant is that no two entries share a URI.
  - Each method is specified against a pure function: `Without`, `Upsert` or
    `Rebuild`. The properties are proved about those functions.
- `Completion` (completion.dfy): the body of `provideCompletionItems`. The
  steps are:
  - take the line before the cursor;
  - find the last `@` and take a `!` just before it;
  - check the span against `^!?@[\w\-_. \/\\]*$`;
  - lower the typed filter and select the entries in index order;
  - build one item per candidate in a loop.

What the code does, as the model states it:
- There is a single Markdown index, and no index of source files.
- There are no scope characters such as `#` or `{`. The span pattern admits
  neither of them, nor `}`.
- The typed filter is lowered but not trimmed.
- Every item's sort text is `a_` followed by the file name.
- The span pattern accepts an e-mail-like `a@b.com`, because the span starts
  at the last `@`. Only an `@` followed by a character outside the class is
  refused.
- The link's url is the document-relative path with backslashes made
  slashes, written as it is (src/extension.ts:186-188). The comment there
  announces wrapping in `<>` for spaces and special characters, but the code
  does not wrap. A path holding a space or a parenthesis therefore gives link
  text that Markdown does not read as a link: `SameDirectoryLink` with the
  stem `my notes` gives `[@my notes](my notes.md)` and a blank line.

The relative path of an entry is taken by dropping `base.length + 1`
characters once the folder path is a plain string prefix of the file path.
The model states exactly that. It does not assume that the next character is
a separator.

## Model

| member | source | states |
|---|---|---|
| Seqs.Filter | src/extension.ts:152 | the result holds exactly the elements of the input that satisfy the test, in their original order (a subsequence), and it is the input itself when every element passes |
| Seqs.FilterMultiset | src/extension.ts:152 | an element that passes the test occurs in the result exactly as often as in the input, and an element that fails it does not occur at all; with the subsequence clause of `Filter` this fixes the result |
| Strings.SliceFrom | src/extension.ts:138 | `slice(k)` keeps the characters from `k` on, and is empty once `k` reaches the length |
| Strings.ToPosix | src/extension.ts:159-161 | same length, every backslash becomes `/` and every other character is kept, so the result holds no backslash; a string with no backslash is returned unchanged |
| Strings.StripTrailingSeps | src/extension.ts:136 | the result is a prefix that does not end in a separator, and everything dropped is a separator |
| Strings.LastSegment | src/extension.ts:156 | the result is a separator-free suffix, either the whole string or preceded by a separator (the last element of the split) |
| Strings.Basename | src/extension.ts:155-157 | a path with any non-separator character gives a non-empty name with no `/` or `\`, namely the last segment after trailing separators are removed; a path of separators only is returned as it is |
| Strings.ToLower | src/extension.ts:68 | same length, each character mapped by the ASCII case mapping |
| Strings.ContainsAt | src/extension.ts:77-78 | `includes` holds exactly when the substring occurs at some offset |
| Strings.StripMdExt | src/extension.ts:163-165 | the result is a prefix of the name, three characters shorter if and only if the lowered name ends in `.md`, otherwise the whole name |
| Strings.HasMdExtChars | src/extension.ts:164 | the lowered name ends in `.md` exactly when the name ends in `.`, `m` or `M`, `d` or `D` |
| Strings.StripMdExtOf | src/extension.ts:163-165 | removing the extension from a stem with `.md` appended gives the stem back |
| Links.ParseRender | src/extension.ts:174-190 | parsing a rendered link `[text](url)` (optionally `!`-prefixed, followed by a blank line) gives back the same link when the text holds no `]` |
| Links.RenderParse | src/extension.ts:174-190 | every text the parser accepts is exactly the rendering of what it parses to |
| Links.RawLinkPath | src/extension.ts:177-184 | the link path before separator normalisation: `path.relative` from the document's directory for a `file`-scheme document, `asRelativePath` otherwise (both host functions are parameters) |
| Links.BuildIsRender | src/extension.ts:174-190 | for every file name, the built text is the rendering of the link with text `@` + the name without `.md` and url the raw path with backslashes made slashes |
| Links.BuildMarkdownLink | src/extension.ts:167-191 | the link text ends with `)` and two newlines and starts with `!` exactly when the image form was requested |
| Links.BuildMarkdownLinkParses | src/extension.ts:174-190 | the built text is the link whose text is `@` plus the file name without `.md` and whose url is the document-relative path (saved document) or workspace-relative path (unsaved) with backslashes made slashes, so the url holds no backslash |
| Links.SameDirectoryLink | src/extension.ts:178-190 | a target `stem.md` (stem without backslash) whose path relative to the saved document's directory is `stem.md` gives `[@stem](stem.md)` and a blank line |
| MdIndexing.RelativePath | src/extension.ts:134-140 | with no workspace folder: the file name; with a folder whose stripped path starts the file path: the rest after `base.length + 1` characters with `\` made `/`; with a folder that does not: the file name with `\` made `/`; never a backslash when a folder is known |
| MdIndexing.MakeEntry | src/extension.ts:130-148 | the pushed entry is keyed by the URI's string form |
| MdIndexing.Without | src/extension.ts:152 | the filter of `removeFromIndex`: the entries whose key is not the removed URI's string form; specified by `WithoutSpec` |
| MdIndexing.Upsert | src/extension.ts:126-148 | `addToIndex` on values: removal of the key, then the new entry appended; specified by `UpsertSpec` |
| MdIndexing.Rebuild | src/extension.ts:118-124 | `refreshIndex` on values: from the empty index, an add per URI in list order; specified by `RebuildSpec` |
| MdIndexing.UniqueKeyCount | src/extension.ts:151-153 | in an index with distinct keys, a URI's key is held by exactly one entry when present and by none otherwise, so a removal drops at most one entry |
| MdIndexing.WithoutSpec | src/extension.ts:151-153 | removal keeps exactly the entries with another key, in their original order, leaves none with the removed key, and shortens the index by the number of entries that had it |
| MdIndexing.WithoutAbsent | src/extension.ts:151-153 | removing a key no entry has is a no-op |
| MdIndexing.WithoutIdempotent | src/extension.ts:151-153 | removing the same URI twice equals removing it once |
| MdIndexing.WithoutUnique | src/extension.ts:151-153 | removal keeps the keys distinct |
| MdIndexing.UpsertSpec | src/extension.ts:126-148 | after an add, exactly one entry has the URI's key and it is last; the entries with other keys are those of before, in the same order; distinct keys stay distinct |
| MdIndexing.UpsertKeys | src/extension.ts:126-148 | an add puts the URI's key into the key set and no other key |
| MdIndexing.ChangeIsUpsert | src/extension.ts:28-32 | the change handler's remove-then-add equals a plain add |
| MdIndexing.RebuildSpec | src/extension.ts:118-124 | a refresh over a URI list gives distinct keys, exactly the distinct URIs of the list, each entry built from a URI of the list |
| MdIndexing.RebuildStep | src/extension.ts:121-123 | one iteration of the loop over `findFiles`' URIs adds the next URI to the index rebuilt so far |
| MdIndexing.MdIndex.constructor | src/extension.ts:13 | the index starts empty, which satisfies the invariant |
| MdIndexing.MdIndex.Remove | src/extension.ts:151-153 | the new entries are the old ones without the URI's key, none has that key, the invariant is kept, and under the invariant the index shrinks by one entry when the URI was indexed and by none otherwise |
| MdIndexing.MdIndex.Add | src/extension.ts:126-149 | the new entries are the old ones without the URI's key plus the new entry at the end, exactly one entry has the key, the other entries are unchanged and in order, and the invariant is kept |
| MdIndexing.MdIndex.Change | src/extension.ts:28-32 | the change handler leaves the index as a single add would, keeping the invariant |
| MdIndexing.MdIndex.Refresh | src/extension.ts:118-124 | the index becomes the rebuild over the URI list, with distinct keys, which are exactly the distinct URIs of the list |
| Completion.BeforeCursor | src/extension.ts:44-45 | the line's prefix up to the cursor column, clamped to the line |
| Completion.LastIndexOf | src/extension.ts:48 | -1 exactly when the character is absent; otherwise an index holding it with no occurrence after it |
| Completion.ParseTrigger | src/extension.ts:47-59 | no span without an `@` before the cursor; a span starts at the last `@`, one column earlier exactly when a `!` precedes it, runs to the cursor, holds no later `@` and only span-pattern characters after the `@` |
| Completion.IsSpanChar | src/extension.ts:57 | the character class `[\w\-_. \/\\]` with `\w` as ASCII letters, digits and `_` |
| Completion.MatchesSpanPattern | src/extension.ts:57 | the regular expression `^!?@[\w\-_. \/\\]*$` |
| Completion.SpanPatternStrip | src/extension.ts:57-68 | the span pattern holds exactly when the span starts with `!@` or `@` and the rest after the trigger is made of span characters, and that rest holds no `@` |
| Completion.TriggerIff | src/extension.ts:48-59 | a completion is offered if and only if some `@` before the cursor is followed only by characters of `[\w\-_. \/\\]` (both directions) |
| Completion.NoAtNoCompletion | src/extension.ts:48-49 | no `@` before the cursor means no completion |
| Completion.StripTriggerPrefix | src/extension.ts:68 | `replace(/^!@\|^@/, '')`: drops a leading `!@`, else a leading `@` |
| Completion.StripTriggerOf | src/extension.ts:68 | stripping the trigger from `@` + text or `!@` + text gives the text back |
| Completion.TypedFilter | src/extension.ts:68 | the lowered span without its trigger; specified by `FilterIsTypedText` |
| Completion.FilterIsTypedText | src/extension.ts:67-68 | the filter is exactly the lowered text typed after the last `@`, made only of span characters with no upper-case letter |
| Completion.CheckReTrigger | src/extension.ts:44-68 | on `Check @Re` the span is `@Re` from column 6 without `!`, and the filter is `re` |
| Completion.Candidates | src/extension.ts:75-79 | the `mdIndex.filter` call with its test `Selects`; specified by `CandidatesSpec` |
| Completion.CandidatesSpec | src/extension.ts:75-79 | an empty filter selects the whole index; otherwise the candidates are exactly the entries whose lowered file name or relative path contains the filter at some offset, in index order, each as often as in the index |
| Completion.ReSelectsReadmeAndRequirements | src/extension.ts:75-79 | the filter `re` selects entries named `Readme.md` and `Requirements.md` |
| Completion.BuildItems | src/extension.ts:81-92 | one item per candidate in candidate order, each with label = file name, detail = relative path, filter text = span + " " + file name + " " + relative path, sort text = `a_` + file name, the range from the span's start to the cursor, and the built link as replacement |
| Completion.ProvideCompletionItems | src/extension.ts:43-95 | no result exactly when no `@` before the cursor is followed only by span characters; otherwise one item per candidate of the typed filter, in index order, each with the fields above |

## Left out

- Watcher creation and event wiring (src/extension.ts:23-32): host plumbing. Only the create, delete and change handlers' effect on the index is modelled, as `MdIndex.Add`, `MdIndex.Remove` and `MdIndex.Change`.
- Completion-provider registration, document selectors and the trigger character (src/extension.ts:35-40, 97-99): host plumbing.
- Command registration (src/extension.ts:102-109) and `deactivate` (src/extension.ts:112-114): host plumbing.
- `runCtxOnActiveMarkdown` (src/extension.ts:193-226): terminal creation and `sendText` are I/O, and its command string depends on `path.relative`.
- `configureMarkdownSettings` (src/extension.ts:228-310): file reads and writes, directory creation, JSON parsing and user messages over a settings file. All of it is I/O.
- `vscode.workspace.findFiles` and `getWorkspaceFolder` are host calls. Their results are inputs: the URI list of `MdIndex.Refresh`, and the folder path passed to `MdIndex.Add` (a function for `Refresh`).
- `path.dirname`, `path.relative` and `vscode.workspace.asRelativePath` are foreign library functions. They are parameters (`Host.PathLib`), and only the separator normalisation and the link format around them are verified.
- Asynchronous interleaving between watcher callbacks, `refreshIndex` and completion requests is host scheduling. Each operation is modelled as running to completion, and the resolver reads the index as a snapshot.
- A URI's `toString()` text, scheme and file-system path are independent fields. The model does not check that they agree with each other.
- Strings are sequences of Unicode characters. JavaScript's `slice`, `lastIndexOf` and indexing, and the editor's `position.character` and range columns (src/extension.ts:45-65), count UTF-16 code units. The model's columns are character indices. On a line with a character outside the Basic Multilingual Plane before the cursor, they differ from the editor's offsets by one per such character.
- The completion item's kind (always `File`) and the line number of its range are not modelled. The range is given by its columns on the cursor's line.
- Strings.ToLower: models ASCII case mapping only. JavaScript's `toLowerCase` also maps non-ASCII letters, some of them to more than one character. The typed filter is always ASCII, because the span pattern's `\w` has no `u` flag, so only file names and paths with non-ASCII letters can be affected.
- Links.BuildMarkdownLinkParses: requires a file name without `]`. The built text is unchanged by this, but such a name makes the link text ambiguous to the parser.
- Completion.ReSelectsReadmeAndRequirements: states selection entry by entry, not the candidate list for a concrete two-entry index.
