# go-struct-to-ts-class, modelled in Dafny

The extension hooks the editor's paste action. When the active document is TypeScript, the
clipboard text is scanned for Go struct declarations. Each struct that is found is pasted as a
TypeScript `class` with one `jsonName: type` line per field. When nothing is found, or the
document is not TypeScript, the clipboard is pasted as it is.

The core is `StructScanner`, a two-pass, line-oriented scanner:

- Pass 1 fills an alias table from `type A B` lines whose `B` is not `struct`.
- Pass 2 keeps at most one open "working definition":
  - a header line opens one, dropping any that is open;
  - a line `}` closes it and emits it;
  - any other line is tried as a field.
- For each field:
  - the json name comes from a `json:"…"` tag, with the first `string`, the first `omitempty`
    and the first `,` cut out and the rest trimmed;
  - `bool` becomes `boolean`;
  - the type is then looked up once in the alias table.

The project has five modules:

- `Wrappers`: the `Option` type.
- `Strings`: the JavaScript string operations the scanner uses (`trim`, `indexOf`, `startsWith`,
  `replace` with a string pattern, `split('\n')`, `join('\n')`), with lemmas that pin each one
  down.
- `Patterns`: the three regular expressions as hand-written matchers over character sequences.
  Lemmas prove that each matcher finds exactly the pattern's match: leftmost for the unanchored
  header and json patterns, greedy runs, and the optional tag group.
- `Scanner`: the datatypes, one function per pass stating what the pass computes line by line,
  and the class `StructScanner`. The class runs both passes in a loop that updates the alias
  table field, the working definition and the list of definitions. Each method is proved against
  those functions.
- `ScannerProperties`: the scanner's promises, proved about the pass functions.
- `Paste`: the class text the paste command builds, the method that builds it, and what the
  pasted text looks like line by line.

Two behaviours of the code are easy to misread:

- After `bool` is rewritten to `boolean`, the code still looks `boolean` up in the alias table.
  It does not skip the lookup.
- The json name is not "the first comma-separated token". It is the whole tag content with the
  first `string`, then the first `omitempty`, then the first `,` removed, then trimmed.
  `String.replace` with a string pattern removes only the first occurrence.

## Model

| member | source | states |
|---|---|---|
| Strings.Trim | src/extension.ts:84 | neither end of a trimmed line is white space, and it is no longer than the line |
| Strings.TrimStartRemovesSpace | src/extension.ts:84 | all that is cut from the front of a line is white space |
| Strings.TrimEndRemovesSpace | src/extension.ts:84 | all that is cut from the end of a line is white space |
| Strings.TrimExact | src/extension.ts:84 | the trimmed line is a slice of the line, and everything cut away on both sides is white space |
| Strings.TrimKeepsSlice | src/extension.ts:84 | what trim keeps is the slice of the line that starts where the leading white space ends |
| Strings.TrimCutsTrailingSpace | src/extension.ts:84 | everything after what trim keeps is white space |
| Strings.TrimOfTrimmed | src/extension.ts:97-98 | a string that starts and ends with a non-space is its own trim |
| Strings.TrimIdempotent | src/extension.ts:84 | trimming twice is trimming once |
| Strings.IndexOf | src/extension.ts:68 | `indexOf` returns -1 or a position where the pattern occurs; `IndexOfExact` adds that it is the leftmost |
| Strings.StartsWith | src/extension.ts:88 | `startsWith('/')` on a trimmed line: the line is non-empty and its first character is `/` |
| Strings.IndexFromLeftmost | src/extension.ts:68 | a search from `i` finds the first occurrence at or after `i`, or reports -1 when there is none |
| Strings.IndexOfExact | src/extension.ts:68 | `indexOf` is -1 exactly when the pattern occurs nowhere; otherwise no occurrence lies before it |
| Strings.ReplaceFirst | src/extension.ts:132-134 | `replace(p, '')` with a string pattern shortens the string by the pattern's length when it occurs and leaves its length otherwise; the `ReplaceFirst*` lemmas fix which characters go |
| Strings.ReplaceFirstAbsent | src/extension.ts:132-134 | replacing a pattern that does not occur leaves the string unchanged |
| Strings.ReplaceFirstAfter | src/extension.ts:132-134 | replacement removes exactly the first occurrence and keeps any later ones |
| Strings.ReplaceFirstChar | src/extension.ts:134 | replacing `,` removes the first comma only |
| Strings.ReplaceFirstSuffix | src/extension.ts:132-133 | an option that first occurs after the separator is cut from there |
| Strings.ReplaceFirstChars | src/extension.ts:132-134 | replacement adds no character |
| Strings.NotContainsAround | src/extension.ts:132-133 | a pattern without the separator cannot straddle it |
| Strings.Split | src/extension.ts:80 | the lines have no newline, there is at least one, and joining them with newlines gives the text back |
| Strings.SplitLine | src/extension.ts:80 | a newline-free piece followed by a newline splits off as one line |
| Strings.SplitSingle | src/extension.ts:80 | text without a newline is one line |
| Strings.SplitJoin | src/extension.ts:22 | splitting undoes joining, for lines without newlines |
| Strings.Join | src/extension.ts:22 | `join('\n')` of no chunks is empty, and otherwise starts with the first chunk; `JoinAppend` and `SplitJoin` fix the rest |
| Strings.JoinAppend | src/extension.ts:22 | joining two non-empty runs of chunks puts one newline between them |
| Patterns.Run | src/extension.ts:117 | a greedy run stays inside the string |
| Patterns.RunStops | src/extension.ts:117 | a greedy run ends at the end of the line or at a character outside its class |
| Patterns.RunAllIn | src/extension.ts:117 | every character a greedy run covers is in its class |
| Patterns.RunIsMaximal | src/extension.ts:117 | a run of class characters followed by a non-class character is the greedy run |
| Patterns.MatchHeader | src/extension.ts:93 | the unanchored header match; `MatchHeaderNone`, `MatchHeaderSound` and `MatchHeaderLeftmost` prove it is the leftmost match of `type (\w+) (\w+)` |
| Patterns.HeaderAtSound | src/extension.ts:93 | the header matcher at a position reports a match of `type (\w+) (\w+)` there, with a second group that cannot be extended |
| Patterns.HeaderAtComplete | src/extension.ts:93 | wherever the header pattern can match, the matcher succeeds there, with the forced first group |
| Patterns.FindHeaderNone | src/extension.ts:93 | the search from `i` fails exactly when the matcher fails at every later position |
| Patterns.FindHeaderLeftmost | src/extension.ts:93 | the search reports the first position at or after `i` where the matcher succeeds |
| Patterns.MatchHeaderNone | src/extension.ts:93-94 | the unanchored header match fails exactly when the pattern matches nowhere in the line |
| Patterns.MatchHeaderSound | src/extension.ts:93-98 | a reported header is a match of the pattern, its captures are the matched slices, and its second group is greedy |
| Patterns.MatchHeaderLeftmost | src/extension.ts:93 | the pattern matches nowhere before the reported header |
| Patterns.HeaderCapturesAreWords | src/extension.ts:93-98 | both header captures are non-empty identifiers |
| Patterns.MatchField | src/extension.ts:117 | a field match has a non-empty name and a non-empty type; `MatchFieldExact` proves it succeeds exactly when the anchored field pattern matches |
| Patterns.FieldRuns | src/extension.ts:117 | in any match of the field pattern, each greedy run ends exactly at the next group boundary |
| Patterns.MatchFieldComplete | src/extension.ts:117-120 | whenever the field pattern can match, the matcher succeeds with the name and type the groups force |
| Patterns.MatchFieldAtBounds | src/extension.ts:117-120 | greedy runs ending at increasing boundaries, with white space after the type, give a match with those captures |
| Patterns.FieldBoundsAt | src/extension.ts:117 | greedy runs ending at increasing boundaries fix the positions where the field groups start and end |
| Patterns.MatchFieldSound | src/extension.ts:117-120 | a successful field match is a match of the pattern; the tag is tried right after white space that cannot be extended |
| Patterns.RunsMakeShape | src/extension.ts:117 | greedy runs that all take part mark out a match of the field pattern |
| Patterns.MatchFieldExact | src/extension.ts:117-120 | the field matcher succeeds exactly when the anchored field pattern matches |
| Patterns.TagAtExact | src/extension.ts:117 | the optional tag group is taken exactly when a non-empty backtick-delimited tag starts right there; it keeps its backticks |
| Patterns.TagAt | src/extension.ts:117 | the optional tag group, when taken, is at least three characters, starts with a backtick and lies inside the line; `TagAtExact` states exactly when it is taken |
| Patterns.MatchJsonTag | src/extension.ts:127 | the `json:"…"` capture of a tag; `MatchJsonTagExact` proves it is the capture of the leftmost occurrence |
| Patterns.JsonAtExact | src/extension.ts:127 | the json matcher at a position succeeds exactly when `json:"…"` matches there, capturing up to the next quote |
| Patterns.FindJsonLeftmost | src/extension.ts:127 | the json search fails exactly when the pattern matches nowhere later, and otherwise reports the first match |
| Patterns.MatchJsonTagExact | src/extension.ts:127-130 | `json:"…"` is found exactly when it occurs; the capture is what lies between the quotes of the leftmost occurrence |
| Scanner.LooksLikeGo | src/extension.ts:68 | the guard both passes apply: non-empty text holding ` struct {`, so at least that long; `NotGoSourceYieldsNothing` states what failing it does |
| Scanner.Skipped | src/extension.ts:85-91 | a trimmed line that is empty or starts with `/`; `SkippedLine` proves both passes ignore it |
| Scanner.CollectAliases | src/extension.ts:81-105 | pass 1 over lines records each line's declaration in order; `CollectAliasesSnoc`, `LastDeclarationWins`, `UndeclaredKept` and `CollectAliasesWellFormed` pin it down |
| Scanner.Pass1 | src/extension.ts:58-105 | pass 1 over a text: the guard, then the declarations of its lines; `Pass1WellFormed` and `Pass1LastDeclaration` state what the table holds |
| Scanner.ExtractFrom | src/extension.ts:81-161 | pass 2 over lines replays one step per line; `ExtractFromSnoc`, `ExtractFromAppend` and `ExtractLineEmits` pin it down |
| Scanner.Pass2 | src/extension.ts:60-163 | pass 2 over a text: the guard, then the definitions emitted over its lines from no open definition; `SingleStruct`, `UnterminatedIsDropped` and `DashFieldsNeverEmitted` state what it returns |
| Scanner.AliasOf | src/extension.ts:93-105 | the alias a line declares: a header whose trimmed second capture is not `struct` declares its trimmed first capture as that type; `AliasOfIsWords`, `LastDeclarationWins` and `UndeclaredKept` state what pass 1 does with it |
| Scanner.StripTagOptions | src/extension.ts:130-135 | the stripped json name is empty or starts and ends with a non-space; `StripOmitempty`, `StripStringOption` and `StripGoTagOptions` give its value on the common tag forms |
| Scanner.JsonName | src/extension.ts:121-137 | the name a field is emitted under; `JsonNameDefaultsToFieldName` and the `Strip*` lemmas pin it down |
| Scanner.ResolveType | src/extension.ts:139-145 | the `bool` rewrite followed by one alias lookup; `BoolBecomesBoolean` and `AliasLookedUpOnce` state both cases |
| Scanner.FieldOf | src/extension.ts:117-158 | the field a line gives, none when the field pattern fails or the json name is `-`; `ClassifyNoDash` and `DashFieldsNeverEmitted` follow it to the output |
| Scanner.Classify | src/extension.ts:84-120 | what a line means to pass 2, tested in the callback's order; `SkippedLine`, `HeaderLine`, `OtherLine`, `ClassifyCloses` and `BodyLineKind` state each case |
| Scanner.Advance | src/extension.ts:107-157 | one step of pass 2 on the definitions and the working definition; `AdvanceEmits` and `HeaderReplacesWorking` state what a step emits and drops |
| Scanner.ScanText | src/extension.ts:56-61 | a scan of fresh text: pass 2 against the table pass 1 builds from an empty one; `ScanSingleStruct`, `DashFieldsNeverEmitted` and `ScanTextOnOneLine` state what it returns |
| Scanner.SkippedLine | src/extension.ts:84-91 | a blank or comment line does nothing in either pass |
| Scanner.HeaderLine | src/extension.ts:93-110 | a header line opens a definition under its first capture, and it declares an alias when its trimmed second capture is not `struct` |
| Scanner.HeaderLineAlias | src/extension.ts:97-105 | pass 1 on a header line sets its trimmed first capture to its trimmed second one unless that is `struct`, and otherwise leaves the table |
| Scanner.OtherLine | src/extension.ts:111-120 | any other line declares no alias; it closes when it is `}` and is tried as a field otherwise |
| Scanner.CollectAliasesSnoc | src/extension.ts:80-105 | pass 1 over one more line updates the table by that line alone |
| Scanner.ExtractFromSnoc | src/extension.ts:80-158 | pass 2 over one more line takes one more step from where it stood |
| Scanner.StructScanner.constructor | src/extension.ts:52-54 | a new scanner starts with an empty alias table |
| Scanner.StructScanner.Scan | src/extension.ts:56-61 | the table becomes the pass 1 table of the text, and the result is what pass 2 gives with that table |
| Scanner.StructScanner.ScanInternal | src/extension.ts:63-164 | pass 1 leaves the table of the text's lines and returns nothing; pass 2 leaves the table alone and returns the definitions pass 2 emits; text that is empty or lacks ` struct {` returns nothing |
| Scanner.StructScanner.VisitLines | src/extension.ts:80-161 | the `forEach` leaves the table pass 1 builds from the lines, or returns the definitions pass 2 emits over them with the table unchanged |
| Scanner.StructScanner.VisitLine | src/extension.ts:81-161 | one callback: pass 1 updates the table by the line's declaration; pass 2 takes that line's step on the definitions and the working definition |
| Scanner.StructScanner.DeclareAlias | src/extension.ts:100-105 | the table gains, or has overwritten, the entry from the struct name to the type name unless that is `struct`, and is otherwise unchanged |
| Scanner.StructScanner.CloseOrFill | src/extension.ts:111-157 | inside an open definition, the step is pass 2's: `}` emits and closes it, and any other line appends the field it gives, if any |
| Scanner.StructScanner.ReadField | src/extension.ts:117-158 | the field read from a line is the one the field function gives, and none for a json name `-` |
| Scanner.StructScanner.ReadJsonName | src/extension.ts:121-137 | the json name is the tag's stripped `json:"…"` content, or the field name without one |
| Scanner.StructScanner.StripOptions | src/extension.ts:130-135 | the reassigned json name equals the crude option stripping of the tag content |
| Scanner.StructScanner.MapType | src/extension.ts:139-145 | the reassigned type equals the `bool` rewrite followed by one alias lookup |
| ScannerProperties.NotGoSourceYieldsNothing | src/extension.ts:66-71 | empty text, or text without ` struct {`, leaves the table alone and yields no definitions |
| ScannerProperties.ReplayAppend | src/extension.ts:81 | pass 2 over two stretches of lines runs over the first, then the second |
| ScannerProperties.KindsAppend | src/extension.ts:81 | each line is classified on its own |
| ScannerProperties.ExtractFromAppend | src/extension.ts:81 | pass 2 over two stretches of raw lines is one stretch after the other |
| ScannerProperties.CloseIsNotHeader | src/extension.ts:93-112 | the line `}` is not a header |
| ScannerProperties.ClassifyCloses | src/extension.ts:111-114 | a line closes the working definition exactly when its trimmed text is `}` |
| ScannerProperties.AdvanceEmits | src/extension.ts:111-114 | a step only appends to the definitions, and it appends exactly when it closes an open definition, which it emits and closes |
| ScannerProperties.ExtractLineEmits | src/extension.ts:111-114 | a raw line emits exactly when its trimmed text is `}` while a definition is open |
| ScannerProperties.HeaderReplacesWorking | src/extension.ts:107-109 | a header line opens a fresh, empty definition under its first capture and drops any open one unemitted |
| ScannerProperties.DefsOnlyGrow | src/extension.ts:113 | pass 2 only appends: definitions emitted earlier stay first, in order |
| ScannerProperties.NoCloseNoEmit | src/extension.ts:112-113 | without a closing line nothing is emitted |
| ScannerProperties.UnterminatedIsDropped | src/extension.ts:113-163 | lines after the last `}` emit nothing, so a definition left open is not returned |
| ScannerProperties.BodyLineKind | src/extension.ts:84-120 | a body line is ignored when blank or a comment, and is tried as a field otherwise |
| ScannerProperties.BodyCollectsFields | src/extension.ts:153-157 | over body lines, the working definition keeps its name and gains exactly their fields in line order, and nothing is emitted |
| ScannerProperties.ReplaySingle | src/extension.ts:108-157 | opening, body and closing steps emit exactly one definition with the body's fields |
| ScannerProperties.CloseKind | src/extension.ts:112 | the line `}` closes |
| ScannerProperties.BodyKinds | src/extension.ts:111-120 | body lines neither open nor close |
| ScannerProperties.SingleStructKinds | src/extension.ts:93-120 | a header, body lines and `}` are an opening step, body steps and a closing step |
| ScannerProperties.SingleStruct | src/extension.ts:108-157 | a header, body lines and `}` give exactly one definition, named by the header, with the body's fields in order |
| ScannerProperties.ScanSingleStruct | src/extension.ts:56-164 | the scan of a text made of one struct returns that one definition, with its fields resolved against the text's own aliases |
| ScannerProperties.ClassifyNoDash | src/extension.ts:147-150 | a line never yields a field whose json name is `-` |
| ScannerProperties.ReplayNoDash | src/extension.ts:147-157 | steps that add no `-` field keep every definition free of them |
| ScannerProperties.DashFieldsNeverEmitted | src/extension.ts:147-150 | no emitted field has the json name `-` |
| ScannerProperties.WordIsOneLine | src/extension.ts:93 | an identifier holds no line break |
| ScannerProperties.StripTagOptionsLacks | src/extension.ts:132-135 | stripping the options adds no character |
| ScannerProperties.JsonNameOnOneLine | src/extension.ts:121-137 | the json name of a one-line field holds no line break |
| ScannerProperties.MatchFieldOnOneLine | src/extension.ts:117 | the captures of a one-line field match hold no line break |
| ScannerProperties.ResolveTypeOnOneLine | src/extension.ts:139-145 | resolving a one-line type against a pass 1 table gives no line break |
| ScannerProperties.FieldOfOnOneLine | src/extension.ts:117-157 | a field read from a one-line text holds no line break |
| ScannerProperties.ClassifyOnOneLine | src/extension.ts:84-157 | a line of the split text contributes nothing with a line break |
| ScannerProperties.ReplayOnOneLine | src/extension.ts:108-157 | steps that bring no line break keep every definition free of them |
| ScannerProperties.ScanTextOnOneLine | src/extension.ts:56-164 | no name, type or json name a scan returns holds a line break |
| ScannerProperties.JsonNameDefaultsToFieldName | src/extension.ts:121-137 | without a tag, or without `json:"…"` in it, a field keeps its Go name as json name |
| ScannerProperties.StripPlainName | src/extension.ts:132-135 | `json:"n"` gives `n` when `n` has no comma, `string` or `omitempty` and no surrounding space |
| ScannerProperties.StripOmitempty | src/extension.ts:132-135 | `json:"n,omitempty"` gives `n` |
| ScannerProperties.StripStringOption | src/extension.ts:132-135 | `json:"n,string"` gives `n` |
| ScannerProperties.StripGoTagOptions | src/extension.ts:130-135 | the tag's own name comes out of `json:"n"`, `json:"n,omitempty"` and `json:"n,string"` |
| ScannerProperties.HeaderFoundAnywhere | src/extension.ts:93 | the header pattern is unanchored: `type A B` is found after any prefix, even inside `subtype A B`, and after a prefix without a space the match is exactly `A` and `B` at that position |
| ScannerProperties.TypeLineShape | src/extension.ts:93 | `type A B` after a prefix is laid out as the header pattern requires, ending the text |
| ScannerProperties.HeaderAtEnd | src/extension.ts:93 | a header laid out up to the end of the text is matched there with its two words as captures |
| ScannerProperties.NoTypeKeywordBefore | src/extension.ts:93 | the header pattern cannot match inside a prefix without a space that is followed by `type` |
| ScannerProperties.FirstHeaderMatch | src/extension.ts:93 | the unanchored match is the one at the first position where the pattern matches |
| ScannerProperties.HeaderAfterSpacelessPrefix | src/extension.ts:93-98 | after a prefix without a space, `type A B` is matched at the prefix's end with captures `A` and `B` |
| ScannerProperties.BareFieldLineDoesNotMatch | src/extension.ts:84-120 | a trimmed line of only a name and a type, qualified types such as `time.Time` included, is not a field, since white space must follow the type |
| ScannerProperties.JsonTag | src/extension.ts:127 | the tag `json:"v"` in backticks: nine characters longer than `v`, a backtick at each end |
| ScannerProperties.JsonTagBackticks | src/extension.ts:117 | a json tag over a value without backticks holds no backtick between its ends |
| ScannerProperties.JsonTagValue | src/extension.ts:127 | the json pattern captures exactly the value of a tag `json:"v"` whose value has no quote |
| ScannerProperties.FieldRunsAt | src/extension.ts:117 | over a word, one space, a type name, one space and a backtick, the greedy runs end at those boundaries |
| ScannerProperties.FieldLineBounds | src/extension.ts:117 | the greedy runs over `name type tag` end at the name, the type and the tag |
| ScannerProperties.FieldLineMatch | src/extension.ts:117-125 | `name type` followed by a backtick-delimited tag matches the field pattern with exactly those three captures |
| ScannerProperties.FieldOfMatch | src/extension.ts:117-157 | a field match with a trimmed name gives that name, the resolved type and the json name, or nothing for `-` |
| ScannerProperties.OptionChars | src/extension.ts:127-134 | appending `,omitempty` or `,string` to a json name brings in no quote and no backtick |
| ScannerProperties.JsonNameOfJsonTag | src/extension.ts:125-135 | a tag `json:"v"` names the field by `v` with its options stripped |
| ScannerProperties.JsonNameOfTag | src/extension.ts:125-135 | the tags `json:"n"`, `json:"n,omitempty"` and `json:"n,string"` all name the field `n` |
| ScannerProperties.JsonFieldLineMatch | src/extension.ts:117 | `name type` followed by a json tag matches the field pattern with those captures |
| ScannerProperties.FieldLineGivesField | src/extension.ts:117-157 | a whole line `Name Type` with tag `json:"n"`, `json:"n,omitempty"` or `json:"n,string"` gives the field `Name` of the resolved type under json name `n`, and nothing when `n` is `-` |
| ScannerProperties.BoolBecomesBoolean | src/extension.ts:139-145 | `bool` is emitted as `boolean` whatever `bool` is aliased to, unless `boolean` is itself an alias |
| ScannerProperties.AliasLookedUpOnce | src/extension.ts:142-145 | any other type is replaced by its alias target if it has one; the target is not looked up again |
| ScannerProperties.WordIsTrimmed | src/extension.ts:97-98 | trimming an identifier capture changes nothing |
| ScannerProperties.AliasOfIsWords | src/extension.ts:93-103 | a declared alias maps an identifier to an identifier other than `struct` |
| ScannerProperties.RecordWellFormed | src/extension.ts:103 | well-formed declarations keep the table well formed |
| ScannerProperties.CollectAliasesWellFormed | src/extension.ts:100-105 | pass 1 keeps the table well formed |
| ScannerProperties.Pass1WellFormed | src/extension.ts:58-105 | the table a scan resolves types against maps identifiers to identifiers other than `struct` |
| ScannerProperties.LastDeclarationWins | src/extension.ts:103 | the last declaration of a name sets its target; later declarations of other names leave it |
| ScannerProperties.UndeclaredKept | src/extension.ts:100-105 | a name nothing declares keeps what the table had for it |
| ScannerProperties.Pass1LastDeclaration | src/extension.ts:56-105 | the table a scan builds maps a name to the target of its last declaration, wherever that stands in the text |
| ScannerProperties.AliasDeclaredAnywhereResolves | src/extension.ts:56-145 | a field type resolves to the alias's last declared target wherever the declaration stands in the text, before or after the use |
| Paste.ClassText | src/extension.ts:14-20 | the text of one class; `ClassTextLines` proves it is the header line, one `\tjsonName: type` line per field and `}`, each ended by a newline |
| Paste.FieldLine | src/extension.ts:17 | one `\tjsonName: type` line; `ClassTextLines` and `PastedLinesNoNewlines` place it in the pasted text |
| Paste.FieldsText | src/extension.ts:16-18 | the field lines of a class body: at least four characters per field, and ended by a newline when there is a field; `FieldsTextJoin` splits them into lines |
| Paste.Chunks | src/extension.ts:14-21 | one class text per definition, in order; `RenderAll` builds it and `ChunksJoin` lays out the joined chunks |
| Paste.PasteText | src/extension.ts:6-23 | what the command pastes; `PasteIsClassLines` and `PasteFallsBack` state both outcomes |
| Paste.RenderClass | src/extension.ts:14-21 | the string built field by field is the class text of the definition |
| Paste.RenderAll | src/extension.ts:12-21 | the chunks are the class texts of the definitions, in order |
| Paste.Paste | src/extension.ts:6-27 | the pasted text is the class texts joined by newlines when the document is TypeScript and the scan finds a struct, and the clipboard otherwise |
| Paste.JoinSplitLast | src/extension.ts:22 | a newline inside the last chunk starts one more line |
| Paste.FieldsTextJoin | src/extension.ts:16-18 | the field lines between a head and a tail are lines of their own |
| Paste.ClassTextLines | src/extension.ts:15-19 | a class text is its header line, one line per field and `}`, each ended by a newline |
| Paste.ChunksJoin | src/extension.ts:22 | the joined chunks lay out each class's lines in turn, each class followed by an empty line |
| Paste.PastedLinesNoNewlines | src/extension.ts:14-21 | no line of the pasted classes holds a line break of its own |
| Paste.PasteIsClassLines | src/extension.ts:11-22 | split at its newlines, the pasted text is exactly the lines of the scanned classes in order: a header, one `\tjsonName: type` line per field, `}`, and an empty line |
| Paste.PasteFallsBack | src/extension.ts:6-23 | outside TypeScript, when the clipboard does not look like Go source, or when the scan finds no struct, the clipboard is pasted unchanged |

## Left out

- The editor plumbing is left out: the clipboard read (src/extension.ts:5), the edit that deletes the selection and inserts the text (src/extension.ts:30-36), and command registration with `activate`/`deactivate` (src/extension.ts:40-46). The clipboard text is a parameter of `Paste.Paste`, and the text to insert is its result.
- The `async`/`await` around the clipboard read is left out. It is an I/O boundary.
- The `console.log` calls are left out. They are diagnostics only.
- The document's language test `languageId === 'typescript'` is a boolean parameter.
- The `try/catch` fallback at src/extension.ts:25-27 is not modelled. Nothing in the scanner throws, so only the fallback to the clipboard text for an empty result is modelled.
- `text || ''` at src/extension.ts:66 is not modelled. A `string` in the model is never null or undefined.
- The check `defs !== null` at src/extension.ts:11 always holds, so the model has no null case for it.
- Strings are sequences of characters. The model does not represent JavaScript's UTF-16 code units, so a character outside the Basic Multilingual Plane counts as one character, not two.
- The three regular expressions are modelled as dedicated matchers. No general regex engine is modelled.
- Regex match arrays are reduced to their capture groups. The `.length === 3` and `.length === 4` tests always hold on a successful match.
- The working definition is a value that is reassigned, not an object mutated through `workingDef.fields.push`. Each working object is pushed to `defs` at most once and is dropped right after, so no aliasing can be observed.
- `Paste.Paste`: the scanner it creates is a fresh object each time. Its alias table cannot survive from one paste to the next.
