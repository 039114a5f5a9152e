# WebGPU shader debugger: a Dafny model of its core

The extension intercepts `GPUDevice.prototype.createShaderModule` on a web
page and rewrites the WGSL source it receives by a find/replace that the user
configures. This project models the two places where that behaviour lives:

- the **page hook** (`hook.js`). It keeps a settings record that starts from two
  page data attributes, with logging switched on. The `wgsl_update_settings`
  listener overwrites that record. The wrapper installed as
  `createShaderModule` normalises line endings in the shader code and in the
  find text. When the find text is non-empty and occurs in the code, the wrapper
  calls `replaceAll` and passes the original entry point a copy of the
  descriptor that carries the new code. Otherwise it passes the original
  descriptor through;
- the **background store** (`service_worker.js`). It holds one configuration
  value. `set_settings` replaces that value as a whole and answers
  `{status: 'success'}`. `get_settings` answers with the current value. Any
  other action is ignored. The listener returns `true` every time.

Files:

- `wrappers.dfy` holds `Option`.
- `configuration.dfy` holds the configuration record and the `|| ''` default.
- `sequences.dfy` holds one sequence fact.
- `newlines.dfy` models `normalizeNewlines`, the global regular-expression
  replacement of `\r\n|\r|\n` by `\n`.
- `replace.dfy` models `includes` and `replaceAll` with a string search value,
  as ECMA-262 defines them. StringIndexOf finds the occurrences. An empty search
  string advances by one. The replacement template is expanded by
  GetSubstitution: `$$`, `$&`, `` $` `` and `$'` are patterns, and everything else
  is literal because a string search value has no capture groups. The file also
  gives a reference left-to-right literal scan and the lemmas that connect the
  two.
- `hook.dfy` models the wrapper's decision as the function `Intercept`. The class
  `PageHook` holds the mutable settings record and its listener, plus the
  wrapper as a method that receives the original entry point as a parameter.
- `service_worker.dfy` holds the store's dispatch as the functions `Next` and
  `Reply` and as the class `SettingsStore`, together with lemmas about
  sequences of messages.

JavaScript values are modelled as follows:

- A property that is absent, `undefined`, or of the wrong type is `None`.
- A string is `seq<char>`.
- A descriptor is its `code` (`Some(text)` only when `code` is a string) plus
  a `rest` value that stands for every other property.

Three points of the code's behaviour are easy to misread:

- The code calls `replaceAll` with a string replacement, so `$&`, `$$`,
  `` $` `` and `$'` in the replacement are expanded and not inserted literally.
  `ReplaceAllPatternExample` shows this. For a replacement without `$`, the
  result is the plain literal replacement (the contract of `ReplaceAll`).
- The replacement text has its line endings normalised too, and not only the
  code and the find text.
- When nothing is replaced, the descriptor passed on is the original one with
  its original line endings. The normalised code is used only for the match and
  the rewrite.

## Model

| member | source | states |
|---|---|---|
| Configuration.OrEmpty | webgpu-shader-debugger/hook.js:24-25 | a text that may be absent defaults to `''`: the string when present, `''` when absent |
| Newlines.Normalize | webgpu-shader-debugger/hook.js:63-65 | the normal form holds no CR, is no longer than the input, and is empty exactly when the input is |
| Newlines.NormalizeFixedPoint | webgpu-shader-debugger/hook.js:63-65 | a string is left unchanged by normalisation if and only if it holds no CR |
| Newlines.NormalizeIdempotent | webgpu-shader-debugger/hook.js:63-65 | normalising twice gives the same result as normalising once |
| Newlines.NormalizeConcat | webgpu-shader-debugger/hook.js:64 | normalisation distributes over concatenation unless the cut separates a CR from the LF after it |
| Newlines.CrLfBecomesOneLf | webgpu-shader-debugger/hook.js:64 | a CR LF pair anywhere becomes a single LF, and the text on both sides is normalised independently |
| Newlines.LoneCrBecomesLf | webgpu-shader-debugger/hook.js:64 | a CR not followed by LF becomes one LF |
| Newlines.LfStaysLf | webgpu-shader-debugger/hook.js:64 | an LF not preceded by CR stays one LF |
| Newlines.NormalizeChars | webgpu-shader-debugger/hook.js:64 | every character of the normal form other than LF occurs in the input |
| Newlines.NormalizeKeepsText | webgpu-shader-debugger/hook.js:64 | normalisation keeps every character that is not a line terminator, in order |
| Replace.IndexOf | webgpu-shader-debugger/hook.js:75 | StringIndexOf: a position it returns lies at or after the start and leaves room for the whole search string; `IndexOfSpec` states that it is the first occurrence |
| Replace.IndexOfSpec | webgpu-shader-debugger/hook.js:75 | StringIndexOf returns an occurrence with none before it from the start position, and returns nothing only when no occurrence exists from there |
| Replace.Includes | webgpu-shader-debugger/hook.js:75 | `includes` is true if and only if the search string occurs at some position |
| Replace.Substitution | webgpu-shader-debugger/hook.js:78 | a replacement template with no `$` is inserted as it is |
| Replace.ReplaceFrom | webgpu-shader-debugger/hook.js:78 | the loop of replaceAll over the occurrences that StringIndexOf finds, each result piece expanded by GetSubstitution; its meaning is given by `ReplaceFromIsLiteral` and `ReplaceFromChars` |
| Replace.ReplaceFromChars | webgpu-shader-debugger/hook.js:78 | every character the loop produces occurs in the input or in the replacement |
| Replace.ReplaceAll | webgpu-shader-debugger/hook.js:75-78 | replaceAll returns the input unchanged when the search string does not occur; for a non-empty search string and a replacement without `$` it is the single-pass, non-overlapping, left-to-right literal replacement |
| Replace.ReplaceFromIsLiteral | webgpu-shader-debugger/hook.js:78 | from a match boundary on, the replaceAll loop produces the left-to-right literal scan when the replacement has no `$` |
| Replace.ReplaceAllPatternExample | webgpu-shader-debugger/hook.js:78 | `$&` in the replacement inserts the matched text and `$$` inserts one `$` |
| Replace.ReplaceAllChars | webgpu-shader-debugger/hook.js:78 | every character of the result occurs in the input or in the replacement |
| Replace.LiteralSelf | webgpu-shader-debugger/hook.js:78 | replacing every occurrence by itself returns the input |
| Replace.LiteralLength | webgpu-shader-debugger/hook.js:78 | result length plus occurrences times the search length equals input length plus occurrences times the replacement length |
| Replace.OccurrencesIndexOf | webgpu-shader-debugger/hook.js:75-78 | the scan replaces at least one occurrence if and only if StringIndexOf finds one |
| Replace.LiteralCopiesPrefix | webgpu-shader-debugger/hook.js:78 | text that does not contain the first character of the search string is copied unchanged, and the scan goes on after it |
| Replace.LiteralReplacesStart | webgpu-shader-debugger/hook.js:78 | an occurrence at the start is replaced, and the scan resumes right after it |
| Replace.LiteralKeepsChar | webgpu-shader-debugger/hook.js:78 | a character where no occurrence starts is kept |
| Replace.LiteralRenameExample | webgpu-shader-debugger/hook.js:78 | replacing `foo` by `bar` in `fn foo() { foo(); }` gives `fn bar() { bar(); }` |
| Hook.Rewrites | webgpu-shader-debugger/hook.js:73-75 | the branch condition of the wrapper: the normalised find text is non-empty and occurs in the normalised code; `EmptyFindPassesThrough` and `NoMatchPassesThrough` state its two failing halves |
| Hook.Rewritten | webgpu-shader-debugger/hook.js:62-75 | the descriptor is present, its `code` is a string, and that code `Rewrites`; `NonStringPassesThrough` states the first two failing cases |
| Hook.NewCode | webgpu-shader-debugger/hook.js:77-78 | the new code is replaceAll of the normalised texts; `RewriteIsLiteral`, `RewriteIsNormalised` and `RewriteChangesCode` state what it holds |
| Hook.Intercept | webgpu-shader-debugger/hook.js:62-96 | the descriptor passed on is the caller's own unless its code is a string containing the non-empty normalised find text; then it is a copy that differs in `code` alone, which holds the replaceAll of the normalised texts; a descriptor is passed exactly when one was given |
| Hook.EmptyFindPassesThrough | webgpu-shader-debugger/hook.js:73-75 | an empty find text passes every descriptor through unchanged |
| Hook.NoMatchPassesThrough | webgpu-shader-debugger/hook.js:75 | a find text absent from the normalised code passes the descriptor through with its original line endings |
| Hook.NonStringPassesThrough | webgpu-shader-debugger/hook.js:62 | a missing descriptor, or one whose code is not a string, is passed through |
| Hook.RewriteIsLiteral | webgpu-shader-debugger/hook.js:73-78 | on a match with a replacement without `$`, the new code is the literal replacement of the normalised find text by the normalised replacement in the normalised code |
| Hook.RewriteIsNormalised | webgpu-shader-debugger/hook.js:77-78 | the rewritten code holds no CR: it is its own normal form |
| Hook.RewriteChangesCode | webgpu-shader-debugger/hook.js:75-78 | on a match, a replacement without `$` whose normalised length differs from the find text's always changes the code |
| Hook.SameTextKeepsCode | webgpu-shader-debugger/hook.js:75-78 | replacing the find text by itself yields the normalised code |
| Hook.PlainRewrite | webgpu-shader-debugger/hook.js:62-84 | for CR-free texts, a non-empty find text and a replacement without `$`, the descriptor passed on carries the literal replacement, which is the code itself when the find text does not occur |
| Hook.RenameExample | webgpu-shader-debugger/hook.js:62-84 | finding `foo` and replacing `bar` turns `fn foo() { foo(); }` into `fn bar() { bar(); }`, with the other properties kept |
| Hook.CrLfFindExample | webgpu-shader-debugger/hook.js:63-78 | a find text written with CR LF matches code written with LF only |
| Hook.Updated | webgpu-shader-debugger/hook.js:34-41 | an event without detail changes nothing; with a detail, the texts become the detail's (or `''`) and `logShaderWGSL` is copied as it is |
| Hook.UpdateForgetsPrevious | webgpu-shader-debugger/hook.js:35-37 | an event with a detail overwrites every field: the result does not depend on the previous record |
| Hook.PageHook.constructor | webgpu-shader-debugger/hook.js:23-27 | the initial record holds the two data attributes (or `''`) and `logShaderWGSL` set to true |
| Hook.PageHook.OnUpdateSettings | webgpu-shader-debugger/hook.js:32-42 | the new record is `Updated` of the old one |
| Hook.PageHook.CreateShaderModule | webgpu-shader-debugger/hook.js:54-97 | the wrapper returns what the original entry point returns for the caller's descriptor, or for the rewritten copy when the current settings rewrite it |
| ServiceWorker.Next | webgpu-shader-debugger/service_worker.js:12-21 | `set_settings` makes the message's data the stored value, and every other action keeps the stored value |
| ServiceWorker.Reply | webgpu-shader-debugger/service_worker.js:12-21 | `set_settings` answers success, `get_settings` answers the stored value, and only these two actions answer at all |
| ServiceWorker.GetAfterSet | webgpu-shader-debugger/service_worker.js:12-20 | a get right after a set returns exactly the data that was set |
| ServiceWorker.LastSet | webgpu-shader-debugger/service_worker.js:12-16 | finds the data of the last `set_settings` in a trace, or reports that there is none |
| ServiceWorker.RunSnoc | webgpu-shader-debugger/service_worker.js:11-24 | handling one more message after a trace applies `Next` to the stored value |
| ServiceWorker.RunKeepsLastSet | webgpu-shader-debugger/service_worker.js:11-24 | after any trace, the store holds the data of the last `set_settings`, or its earlier value if the trace has none |
| ServiceWorker.ReadsKeepValue | webgpu-shader-debugger/service_worker.js:17-21 | a trace without `set_settings` leaves the stored value unchanged |
| ServiceWorker.SettingsStore.constructor | webgpu-shader-debugger/service_worker.js:4-8 | the store starts with empty texts and `logShaderWGSL` false |
| ServiceWorker.SettingsStore.OnMessage | webgpu-shader-debugger/service_worker.js:11-24 | the new stored value is `Next` of the old one, the response is `Reply`, and the listener keeps the channel open |

## Left out

- Console logging is not modelled. This covers the `logShaderWGSL`-gated log of the original code at hook.js:68-70 and every other `console` call. `logShaderWGSL` is kept only as a settings field.
- The start-up guards and the installation are not modelled. These are the `typeof GPUDevice` check, the `typeof originalCreateShaderModule` check, and the assignment to `GPUDevice.prototype`. The model describes the wrapper once it is installed.
- The `this` device is not modelled. The original entry point is a parameter of the wrapper, and `call(device, …)` is that parameter's application.
- Chrome messaging is not modelled: asynchrony, `sender`, and keeping the channel open beyond returning `true`. The content script and the popup are not part of this model.
- JavaScript values of other types are not modelled:
  - A truthy non-string find or replace text after an update would make `normalizeNewlines` throw.
  - A non-object `event.detail` or `message.data` is not represented.
  - A message without `action` is treated as an unrecognised action.
- Strings are sequences of characters, not of UTF-16 code units. Surrogate pairs and code-unit positions are not distinguished.
- Object identity is not modelled. "Passed through" means the same value, and the spread copy `{ ...descriptor, code }` is the same record with `code` replaced.
