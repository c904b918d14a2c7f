# dtweaks rule engine in Dafny

dtweaks rewrites XDG desktop entries after they are installed. Each entry may have
a rule file with the same base name. A rule file is a key file. Each section of
it names a glob pattern. A plain key `K = template` in a section says how to
rewrite key `K` of every target section the pattern matches. A following
`K$ = regex` adds an extractor: the rewrite only happens when the regex
matches the old value, and its captures can be used in the template.

This project models the core of `src/dtweaks.c`:

- **Rule loader** (`Rules`, lines 205-269). Rule sections become group rules.
  Each plain key gets a template. Each `key$` entry attaches a regex to a key
  declared earlier in the same section, or is rejected with a diagnostic.
  The loader walks the key list of each section, which holds one item per
  key line, and looks each value up by key. GKeyFile returns the value of the
  key's last line, so a repeated key reads its last value on every line
  (`Document.Reads`).
- **Group matcher** (`Glob`, `Apply.FindGroup`, lines 271-284). A target
  section is rewritten by the first rule section whose name matches it as a
  glob.
- **Template engine** (`Template`, lines 118-145 and the scan regex at line
  380). It handles `$name`, `${name}`, `$*`, `${*}` and `$$`. A name is looked
  up as a named group first, then as a group number.
- **Applier** (`Apply`, lines 148-177). It walks the target section's keys
  and rewrites each one that has a rule.
- **Per-file outcome** (`Apply.ProcessFileAsWritten`, lines 180-297). It
  produces the success flag and the printed or saved result. The program
  never clears the `GError` of a failed compilation (the second finding
  below). `Apply.ProcessFile` is the same function with every compilation
  and the save starting from a clear error.

Other modules:

- `Document` models a parsed key file (`GKeyFile`) as ordered sections of
  ordered key/value lines. A key's value is read from and written to its last
  line (`Document.LastIndex`), as GKeyFile's lookup table does.
- `Regex` models the regex library as an oracle: whether a pattern compiles,
  and the match information (numbered and named groups) of a match.
- `Utf8` and `Template.RenderAsWritten` model the byte level, which is needed
  for the first finding below.
- `Greetings` and `Scenarios` hold worked templates, rule files and targets.

The loader whose every compilation starts from a clear error (`Rules.Load`)
is proved equal to a reference description (`Rules.ReferenceRules` and
`Rules.AllAccepted`). That description says which template and extractor each
key ends up with, and when the load succeeds. The loader as written
(`Rules.LoadAsWritten`) succeeds exactly when that one does. It builds the
same rules when every regex compiles. After a failed compilation it also
rejects every later regex of the file. For sections without a
repeated key, the key-by-key applier is proved equal to rewriting every entry
independently (`Apply.Rewritten`). Where a key is repeated, the program visits
it once per line, and each visit reads and rewrites the key's last line.

**Order of a key and its extractor.** The loader reads keys in file order.
A `key$` entry placed before its plain key is rejected as an invalid key, and
the file fails. In `[App]` with `Name$ = ^(\w+)$` followed by
`Name = Hello, $1!`, `Name` then has no extractor, so `$1` renders empty and
`Name = World` becomes `Hello, !` (`Scenarios.ExtractorFirst`). With the plain
key first, `Name = World` becomes `Hello, World!` (`Scenarios.HelloWorld`).

## Model

| member | source | states |
|---|---|---|
| Glob.Matches | src/dtweaks.c:278 | Glob matching of a whole section name, where `*` matches any text and `?` one character. Its properties are stated by `Glob.LiteralMatchesItselfOnly`, `Glob.MatchesItself`, `Glob.StarMatchesEverything`, `Glob.QuestionMatchesOneChar` and `Glob.MatchConcat`. |
| Glob.LiteralMatchesItselfOnly | src/dtweaks.c:220 | A section name without `*` or `?` matches exactly the target section of the same name. |
| Glob.MatchesItself | src/dtweaks.c:278 | Every rule section name matches a target section spelled the same, wildcards included. |
| Glob.StarMatchesEverything | src/dtweaks.c:278 | A rule section named `*` matches every target section, the empty name included. |
| Glob.QuestionMatchesOneChar | src/dtweaks.c:278 | A rule section named `?` matches exactly the one-character names. |
| Glob.MatchConcat | src/dtweaks.c:278 | A name matches `p1 + p2` exactly when it splits into a part matching `p1` followed by a part matching `p2`. |
| Regex.FetchNamed | src/dtweaks.c:132 | Fetching a named group gives nothing exactly when the pattern has no group of that name. |
| Regex.Fetch | src/dtweaks.c:136 | Fetching group number n gives nothing exactly when the pattern has no group n. |
| Base.Atoi | src/dtweaks.c:134 | The value of the leading digits of a name. `Base.AtoiStopsAtNonDigit` states that whatever follows them is ignored, and `Base.LeadingDigits` which digits are read. |
| Base.LeadingDigits | src/dtweaks.c:134 | `atoi` reads the longest run of leading decimal digits and stops at the first non-digit. |
| Base.AtoiStopsAtNonDigit | src/dtweaks.c:133-134 | The group number of a variable name is the value of its leading digits, whatever follows them. |
| Template.NextToken | src/dtweaks.c:380 | Each step of the scan consumes at least one character and spells exactly the text it consumed. |
| Template.BraceClose | src/dtweaks.c:380 | `${...}` is lazy: it closes at the first `}` that follows with no line break between, and does not close when no such `}` exists. |
| Template.WordRun | src/dtweaks.c:380 | `$name` takes the longest run of word characters after the `$`. |
| Template.Scan | src/dtweaks.c:380 | The template cut into literal characters, `$$` and variables, as the global scan regex does. `Template.ScanSpellsTemplate` states that the pieces spell the template, and `Template.ScanWellFormed` what each piece may hold. |
| Template.ScanSpellsTemplate | src/dtweaks.c:172-174 | The scan cuts the whole template into pieces, loses nothing and adds nothing: the pieces spell the template. |
| Template.ScanWellFormed | src/dtweaks.c:380 | Every braced variable name is free of `}` and line breaks, every bare name is a non-empty word or `*`, and every literal character is not a line break. |
| Template.ResolveVar | src/dtweaks.c:125-142 | `*` is the old value. Without a match every other variable is empty. Otherwise a named group is used first, then, for a name starting with a digit, the group with that number. A group that does not exist or did not take part gives the empty string. |
| Template.Substitution | src/dtweaks.c:118-145 | The text `replacer_callback` appends for one piece. Its cases are stated by `Template.RenderEscapedDollar`, `Template.RenderLoneDollar`, `Template.RenderBareWildcard`, `Template.RenderBracedWildcard`, `Template.RenderBareVariable` and `Template.RenderBracedVariable`. |
| Template.Render | src/dtweaks.c:172-174 | The rendered template: the substitutions of the pieces, in order. `Template.RenderLiteralPrefix` and `Template.RenderWithoutDollar` state how literal text passes through. |
| Template.RenderWithoutDollar | src/dtweaks.c:125-127 | A template without `$` renders as itself, with or without a match. |
| Template.RenderLiteralPrefix | src/dtweaks.c:125-127 | Text without `$` in front of a template is copied unchanged in front of the rest of the rendering. |
| Template.RenderEscapedDollar | src/dtweaks.c:125-127 | `$$` renders as one `$`. |
| Template.RenderBareWildcard | src/dtweaks.c:128-129 | `$*` renders as the key's old value. |
| Template.RenderBracedWildcard | src/dtweaks.c:128-129 | `${*}` renders as the key's old value. |
| Template.RenderBracedVariable | src/dtweaks.c:125-142 | `${name}` renders as the variable `name`, for any non-empty name without `}` or line breaks. |
| Template.RenderBareVariable | src/dtweaks.c:125-142 | `$name` renders as the variable `name` when `name` is the whole run of word characters after the `$`. |
| Template.WordRunCovers | src/dtweaks.c:380 | A run of word characters that ends at a non-word character is exactly the name the scan takes. |
| Template.RenderLoneDollar | src/dtweaks.c:125-127 | A `$` that starts no variable and no `$$` is copied as a literal `$`. |
| Template.UnclosedBraceIsLiteral | src/dtweaks.c:125-127 | `${` followed by text that holds neither `}` nor `$` is copied literally. |
| Template.AsWrittenAgreesOnAscii | src/dtweaks.c:127 | For an ASCII template, copying one byte per literal character gives the UTF-8 encoding of the intended rendering. |
| Template.AsWrittenTruncatesMultiByteChar | src/dtweaks.c:127 | The template `é` renders as the single byte C3 instead of the two bytes C3 A9. |
| Utf8.EncodeChar | src/dtweaks.c:127 | A character takes one to four UTF-8 bytes, and one byte, equal to its code, exactly when it is ASCII. |
| Utf8.EncodeAppend | src/dtweaks.c:127 | Encoding two strings one after the other gives the encoding of their concatenation. |
| Document.Keys | src/dtweaks.c:150 | The key list of a section has the section's keys, in order. |
| Document.LastIndex | src/dtweaks.c:154 | A key is read from its last line, and reported absent exactly when no line has it. |
| Document.Reads | src/dtweaks.c:224-233 | Walking a section's key list gives one item per line, each with its own key and the value of that key's last line. No value is ever missing. |
| Document.ReadsOfDistinct | src/dtweaks.c:224-228 | When each key occurs once, every line reads back its own value. |
| Document.SetValue | src/dtweaks.c:175 | After a write, the key reads back as the new value, every other key reads as before, and an existing key keeps its place. |
| Rules.LoadEntry | src/dtweaks.c:224-266 | One key line of a rule section. `Rules.LoadEntriesMatchesReference` and `Rules.LoadEntriesErrors` state what a whole section loads to. |
| Rules.LoadGroups | src/dtweaks.c:205-269 | All sections of a rule file, in order. `Rules.LoadIsPerSection` states the result, and `Rules.AsWrittenFailsLikeCorrected` the effect of the never-cleared error. |
| Rules.RegexKeyOf | src/dtweaks.c:235-236 | A key names the extractor of `k` exactly when it is `k` followed by `$`. |
| Rules.PlainKeyHasLastIndex | src/dtweaks.c:260-265 | A key gets a rule exactly when it does not end in `$` and is declared in the section. |
| Rules.LoadEntriesMatchesReference | src/dtweaks.c:224-266 | With every compilation starting from a clear error, loading a rule section gives every plainly declared key its last template. The extractor is the first compiling regex given for the key after that declaration. Nothing else gets a rule. |
| Rules.LoadEntriesErrors | src/dtweaks.c:235-259 | With every compilation starting from a clear error, a rule section loads without error exactly when every `key$` entry refers to a key declared before it, is the first extractor of that key since its latest plain declaration, and compiles. |
| Rules.LoadEntriesErrorsAsWritten | src/dtweaks.c:235-259 | On a section entered with a clear error, the loader as written reports a diagnostic exactly when the corrected one does. |
| Rules.LoadIsPerSection | src/dtweaks.c:205-269 | With every compilation starting from a clear error, a rule file becomes one group rule per section, in order. Each has its section name as pattern and the rules of the section as GKeyFile reads it. It loads without error exactly when every section does. |
| Rules.LoadAsWrittenErrors | src/dtweaks.c:205-269 | As written, a rule file loads without error exactly when every section's regex entries are accepted, and an error left set always comes with a diagnostic. |
| Rules.ReadsCompile | src/dtweaks.c:228-251 | When every regex line of a section compiles, so does every regex value the loader reads for it. |
| Rules.LoadEntriesKeepErrors | src/dtweaks.c:242-255 | The loader never withdraws or changes a diagnostic: the diagnostics before a run of key lines are a prefix of those after it. |
| Rules.StickyEntriesDiverge | src/dtweaks.c:251-257 | On a section entered with a clear error, the loader as written and the corrected one agree unless both report an error. |
| Rules.AsWrittenFailsLikeCorrected | src/dtweaks.c:205-269 | On any rule file, the loader as written gives the corrected result with a clear error, or both loaders report errors. |
| Rules.StickyEntriesAgree | src/dtweaks.c:251-257 | On a section entered with a clear error and whose every regex compiles, the loader as written and the corrected loader agree. |
| Rules.AsWrittenAgreesWithoutCompileFailure | src/dtweaks.c:205-269 | When every regex of the rule file compiles, the loader as written gives the same rules and diagnostics as the corrected one. |
| Apply.FindGroup | src/dtweaks.c:275-283 | A target section is handled by the first group in rule-file order whose pattern matches its name, or by none when no pattern matches. |
| Apply.ApplyStep | src/dtweaks.c:152-175 | One pass of the `apply_tweaks` loop: read the key's current value, and write back the rendered template when a rule applies and its extractor matches. `Apply.ApplySectionPointwise` states the effect of the whole walk. |
| Apply.ApplyWalk | src/dtweaks.c:150-176 | The walk over a snapshot of the section's key list. `Apply.ApplySectionPointwise` states its result. |
| Apply.ApplyDocument | src/dtweaks.c:271-284 | Every target section handed to its first matching group. `Apply.ApplyDocumentEffect` states its result. |
| Apply.ProcessWith | src/dtweaks.c:180-297 | `process_file` given the rule file, the target and the output mode. `Apply.ProcessFileAsWrittenOutcome`, `Apply.ProcessFileOutcome` and `Apply.AsWrittenOutcome` state its results. |
| Apply.Rewritten | src/dtweaks.c:156-175 | Applying a rule keeps the key. A key without a rule keeps its value, and so does a key whose extractor does not match. Otherwise the value becomes the rendered template, with the extractor's match when there is one. |
| Apply.ApplySectionPointwise | src/dtweaks.c:148-177 | Walking the keys and reading each value afresh rewrites every entry independently: the section keeps its keys, in order, and each entry changes as `Apply.Rewritten` says. |
| Apply.ApplyDocumentEffect | src/dtweaks.c:271-284 | Every target section keeps its name and place. It is untouched when no group matches, and otherwise rewritten entry by entry by the first matching group only. |
| Apply.ProcessFileOutcome | src/dtweaks.c:180-297 | For `process_file` with every compilation and the save starting from a clear error: a target with no rule file succeeds untouched, and an unreadable target or rule file fails untouched. Otherwise the rewritten target is printed or saved, and the file succeeds exactly when every regex entry is accepted and the save did not fail. |
| Apply.ProcessFileAsWrittenOutcome | src/dtweaks.c:180-297 | For `process_file` as written: the same early returns. Otherwise the target rewritten by the groups of the loader as written is printed, or is saved when the save succeeds and no compilation failed. The file succeeds exactly when every regex entry is accepted and the result could be printed or saved. |
| Apply.AsWrittenStaleNeverSaves | src/dtweaks.c:251-293 | As written, once a failed compilation has left the error set, the save refuses to run: the target is untouched and the file fails. |
| Apply.AsWrittenOutcome | src/dtweaks.c:180-297 | The never-cleared error never changes whether a file succeeds. When every regex of the rule file compiles, it changes nothing at all. |
| Rules.GroupPatterns | src/dtweaks.c:205-220 | For either loader and any error state, a rule file becomes one group per section, in order, each with its section name as pattern. |
| Apply.LoadedGroupMatch | src/dtweaks.c:218-220 | For the loader as written and the corrected one alike, the group applied to a target section is the first rule section whose name, read as a glob, matches it. |
| Greetings.GroupOneResolves | src/dtweaks.c:132-136 | Variable `1` is capture group 1 when no group is named `1`. |
| Greetings.HelloGreetsGroupOne | src/dtweaks.c:125-142 | `Hello, $1!` renders as `Hello, ` followed by capture group 1 and `!`, whatever the group holds. |
| Greetings.HelloTemplate | src/dtweaks.c:130-141 | With an extractor like `^(\w+)$`, `Hello, $1!` applied to a one-word value renders `Hello, ` followed by the value and `!`. |
| Greetings.HelloUnmatchedTemplate | src/dtweaks.c:130 | Without a match, `$1` renders empty: `Hello, $1!` becomes `Hello, !` whatever the old value. |
| Scenarios.HelloRulesLoad | src/dtweaks.c:224-266 | `Name` followed by `Name$` gives `Name` its template and extractor without error. |
| Scenarios.HelloWorld | src/dtweaks.c:180-297 | With the plain key first, `Name = World` becomes `Hello, World!`, and likewise for every one-word value, and the file succeeds. |
| Scenarios.HelloNoMatch | src/dtweaks.c:164-169 | Every value the extractor does not match is left unchanged, and that is not a failure. |
| Scenarios.ExtractorFirstRulesLoad | src/dtweaks.c:238-243 | `Name$` before `Name` is rejected: `Name` gets no extractor and the load reports an error. |
| Scenarios.ExtractorFirst | src/dtweaks.c:180-297 | With the extractor first, `Name` becomes `Hello, !` whatever its old value, and the file fails. |
| Scenarios.StaleRulesAsWritten | src/dtweaks.c:251-257 | As written, after `(` fails to compile, the valid `^(.*)$` is rejected too, and the error outlives the section. |
| Scenarios.StaleRulesCorrected | src/dtweaks.c:251-259 | Compiled independently, only `(` is rejected and `Icon` gets its extractor. |
| Scenarios.StaleErrorBlocksSave | src/dtweaks.c:289-293 | As written, the leftover error makes the save refuse to run, so the target is never written. Corrected, the rewritten target is saved and the file still fails. |
| Scenarios.RepeatedRegexRead | src/dtweaks.c:224-228 | With `Name$ = (` and then `Name$ = ^(.*)$`, both `Name$` lines read as `^(.*)$`. |
| Scenarios.RepeatedRegexLoad | src/dtweaks.c:224-266 | For that section both loaders attach `^(.*)$` to `Name`, report a second extractor, and leave the error clear. |
| Scenarios.RepeatedRegexSaved | src/dtweaks.c:180-297 | For that section both versions of `process_file` save the rewritten target, and the file fails. |
| Scenarios.FirstDeclaredGroupWins | src/dtweaks.c:275-282 | With `[App*]` declared before `[App]`, a section named `App` is handled by `[App*]`. |

## Left out

- Command line, configuration directories and the search for the rule file (`main`, `load_config_dirs`, `find_tweak`, `read_paths_from_stdin`). What the search finds is a parameter (`Apply.RuleSource`).
- Reading, parsing and writing key files, and GKeyFile escaping. A parsed file is a `Document` value, and whether the save succeeds is a parameter (`Apply.Mode`).
- Printing, logging and the text of diagnostics. Each diagnostic is a `Rules.LoadError` value.
- Regular-expression semantics. Compiling and matching are an oracle (`Regex.Oracle`), and a compiled regex is identified by its pattern text.
- Memory management: freeing, reference counts and `g_autoptr`.
- The check for a missing key list at lines 213-216. It cannot fail for a section GKeyFile itself reported. The check for a missing value at lines 228-233 is modelled and proved never to fire (`Document.Reads`).
- Apply.ApplySectionPointwise and Apply.ApplyDocumentEffect assume that no key occurs twice in a target section. The key-by-key applier itself reads and writes a repeated key at its last line, as GKeyFile does.
- Template.Render: `${}` renders as a NUL character, as `ignore[0]` of an empty capture gives. The C string that then ends early at that NUL is not modelled.
- Template.Render: `\w` is taken as ASCII letters, digits and `_`. GLib always compiles with Unicode character properties, so in the program `\w` also matches non-ASCII letters and digits. For the template `$ñame`, the program takes `ñame` as the variable name and, when no group has that name, renders it empty. The model takes `$` as a lone dollar and copies `$ñame` unchanged.
- Template.Render: `.` is taken to exclude the line breaks LF, VT, FF, CR, U+0085, U+2028 and U+2029.
- Apply.ProcessFileAsWritten: it reproduces only the never-cleared error. Templates are rendered by the corrected `Template.Render`; the lead-byte cut of line 127 is modelled apart, by `Template.RenderAsWritten`.
- Template.RenderAsWritten: a multi-byte line break is copied whole, because the scan regex never matches it. Only characters matched by `.` are cut to their lead byte.
- Base.Atoi: the value is an unbounded natural. The overflow of `atoi` on very long digit runs is not modelled.
- Rules.LoadEntry: an empty key would make `key[keylen - 1]` read out of bounds. GKeyFile does not produce empty keys, so they are treated as plain keys.
- Invalid UTF-8 in values and templates. Text is a sequence of Unicode scalar values.
- The pairing of `tweaks_group_names[i]` with the i-th group transformer at lines 275-276. It holds because the `continue` at line 215 is never taken, and the model keeps one list.
- `fbuildroot.py`, the build script, is not part of this model.

## Findings

| source | as written | input that shows it | evidently intended | confidence | as-written member | corrected member |
|---|---|---|---|---|---|---|
| src/dtweaks.c:127 | A literal character of the template is copied as `ignore[0]`, only the first byte of its UTF-8 encoding. | Template `é` (bytes C3 A9) renders as the single byte C3, which is invalid UTF-8. | Copy the whole matched character. | not executed; GRegex matches `.` per UTF-8 character | Template.AsWrittenTruncatesMultiByteChar | Template.RenderWithoutDollar |
| src/dtweaks.c:182, 251, 290 | `error` is never cleared after a failed `g_regex_new`. GLib refuses to run `g_regex_new` and `g_key_file_save_to_file` when handed an error that is already set. So every later regex of the file fails, and the target is never saved. | Rule section `[App]` with `Name = N`, `Name$ = (`, `Icon = I`, `Icon$ = ^(.*)$`: `Icon` loses its valid extractor and the rewritten target is not written. | Each compilation and the save start with a clear error. Only the broken regex is rejected and the result is saved. | not executed; relies on GLib's documented precondition that `*error` is NULL | Scenarios.StaleErrorBlocksSave | Scenarios.StaleRulesCorrected |
