# repoclip in Dafny

repoclip copies the text of every file in the current directory to the clipboard as
one document. Files matched by the project's `.gitignore`, and anything under `.git`
or `node_modules`, are skipped. This project models the logic of `src/index.ts` and
proves properties of it:

- `getGitignorePatterns` turns the ignore file's text into a list of patterns. It
  splits the text on `'\n'` and keeps a line when its trimmed form is non-empty and
  the line itself does not start with `#`. A missing file yields no patterns.
- `getFilesContent` builds the `ignore()` rule list: the patterns first, then
  `.git` and `node_modules`. It drops the enumerated files that the rules ignore.
  Then a loop appends one block per surviving file that can be read:
  a newline, 60 `=`, a newline, `File: <path>`, a newline, 60 `=`, a newline, the
  content, and a newline. A file whose read throws is skipped.
- `main` reports "No files found to copy." when the document is empty.

Files:

- `wrappers.dfy` holds `Option`.
- `seqs.dfy` holds the order-preserving `Filter` (JavaScript's `Array.prototype.filter`)
  and `IsSubsequence`.
- `js_string.dfy` holds the JavaScript string operations `src/index.ts` uses: `split` with
  a one-character separator, `trim` and `startsWith` in the ignore-file parser, and
  `repeat` for the delimiter line. `trim` removes exactly
  the ECMAScript WhiteSpace and LineTerminator code points.
- `repoclip.dfy` holds the model of `src/index.ts`. `getFilesContent` is a method with
  a loop. Its invariant ties the output to the pure function `Doc`.

The parts outside `src/index.ts`'s own logic are parameters:

- `gitignore: Option<string>` is the `.gitignore` text. It is `None` when
  `fs.existsSync` says the file is missing.
- `files: seq<string>` is the result of `glob('**/*', { nodir, dot })`.
- `matcher(rules, path)` is the `ignore` library's `ig.ignores(path)` for the rules added so far.
- `read(path)` is `fs.readFileSync(path.join(dir, path), 'utf-8')`. It is `None` when the read throws.

## Model

| member | source | states |
|---|---|---|
| `RepoClip.KeepLine` | src/index.ts:16 | the `filter` callback `line => line.trim() && !line.startsWith('#')`; a definition with no contract of its own, whose meaning `RepoClip.KeepLineIff` states |
| `RepoClip.GitignorePatterns` | src/index.ts:9-17 | a missing ignore file gives no patterns; an existing one gives the parsed lines of its text |
| `RepoClip.ParseIgnoreLines` | src/index.ts:15-16 | the patterns are an order-preserving subsequence of the `'\n'`-split lines; a line is among them exactly when it is a split line that passes the filter |
| `RepoClip.KeepLineIff` | src/index.ts:16 | a line passes the filter exactly when it has a non-whitespace character and its first character is not `#` |
| `RepoClip.PatternsAreNotBlankOrComments` | src/index.ts:16 | every pattern has a non-whitespace character, does not start with `#`, and contains no newline |
| `RepoClip.ParseKeepsLine` | src/index.ts:16 | a line with a non-whitespace character and no leading `#` is kept, even if whitespace comes before a `#` (`"  #x"`); the `#` test is on the untrimmed line |
| `RepoClip.ParseJoin` | src/index.ts:16 | parsing the newline-join of newline-free lines is the same as filtering those lines |
| `JsString.IsWhitespace` | src/index.ts:16 | the ECMAScript WhiteSpace and LineTerminator code points that `trim()` removes; a definition with no contract of its own, used by the contracts of `TrimStart`, `TrimEnd` and `Trim` |
| `JsString.StartsWith` | src/index.ts:16 | `startsWith(prefix)`: the prefix is no longer than the string and equals its first characters; a definition with no contract of its own, used in `RepoClip.KeepLineIff` |
| `JsString.Split` | src/index.ts:16 | `split('\n')` gives at least one piece; no piece holds the separator; joining the pieces with the separator gives back the text |
| `JsString.SplitJoin` | src/index.ts:16 | splitting a join of separator-free pieces gives the pieces back |
| `JsString.Trim` | src/index.ts:16 | `trim()` is a slice of its input with only whitespace before and after it; when it is non-empty it neither starts nor ends with whitespace |
| `JsString.TrimStart` | src/index.ts:16 | the result is a suffix of the input; everything dropped is whitespace; the result does not start with whitespace |
| `JsString.TrimEnd` | src/index.ts:16 | the result is a prefix of the input; everything dropped is whitespace; the result does not end with whitespace |
| `JsString.TrimEmptyIff` | src/index.ts:16 | a line trims to the empty (falsy) string exactly when every character is whitespace |
| `JsString.Repeat` | src/index.ts:45-47 | `'='.repeat(60)` has length 60 and every character is `=` |
| `Seqs.Filter` | src/index.ts:34 | `filter` keeps an order-preserving subsequence; an element is kept exactly when it is in the input and passes the test; the result is never longer |
| `Seqs.FilterMultiplicity` | src/index.ts:34 | an element that passes the test is kept as many times as it occurs in the input, and one that fails is not kept at all |
| `RepoClip.Ignore.constructor` | src/index.ts:21 | `ignore()` starts with no rules |
| `RepoClip.Ignore.Add` | src/index.ts:21-24 | `.add(ps)` appends `ps` to the rules |
| `RepoClip.Rules` | src/index.ts:20-24 | the rule list is the parsed patterns followed by `.git` and then `node_modules`, so the built-ins always come last |
| `RepoClip.ValidFiles` | src/index.ts:34 | `files.filter(file => !ig.ignores(file))`; a definition with no contract of its own, whose properties `RepoClip.ValidFilesSelection` states |
| `RepoClip.ValidFilesSelection` | src/index.ts:34 | the surviving files are an order-preserving subsequence of the enumerated files; a file survives exactly when it is enumerated and not ignored; filtering never adds files |
| `RepoClip.Block` | src/index.ts:45-49 | a file's block is 131 characters longer than its path and content together, and starts and ends with a newline |
| `RepoClip.HeaderAt` | src/index.ts:45-46 | the path starts at offset 68 of its block, and a newline follows it |
| `RepoClip.BlockInjective` | src/index.ts:45-49 | for newline-free paths, a block determines both its path and its content |
| `RepoClip.Entry` | src/index.ts:41-53 | one pass of the `try`/`catch`: a file contributes the empty string exactly when its read fails, since a readable file's block is never empty |
| `RepoClip.Doc` | src/index.ts:36-56 | the string the loop builds for a file list; a definition with no contract of its own, whose properties `DocConcat`, `DocAppend`, `DocSkipsUnreadable`, `DocOfReadable` and `DocEmptyIff` state |
| `RepoClip.DocConcat` | src/index.ts:38-54 | the document of a concatenated file list is the concatenation of the two documents |
| `RepoClip.DocAppend` | src/index.ts:38-54 | handling one more file appends that file's block, or nothing when its read fails |
| `RepoClip.DocSkipsUnreadable` | src/index.ts:50-53 | a file whose read fails contributes nothing wherever it stands, and the files after it are still handled |
| `RepoClip.DocOfReadable` | src/index.ts:41-53 | the document equals the document of the readable files alone |
| `RepoClip.DocEmptyIff` | src/index.ts:45-49 | the document is empty exactly when no file in the list reads |
| `RepoClip.FilesContent` | src/index.ts:19-57 | the value getFilesContent returns: the document of the files that survive the full rule list; a definition with no contract of its own, which `GetFilesContent` is proved to compute and `NothingToCopyIff` characterises when empty |
| `RepoClip.GetFilesContent` | src/index.ts:19-57 | the output is the document of the files that survive the rule list, in order: one block per readable file, nothing for an unreadable one |
| `RepoClip.Report` | src/index.ts:66-71 | an empty document is reported as nothing to copy; any other document is copied unchanged |
| `RepoClip.NothingToCopyIff` | src/index.ts:64-69 | main reports "No files found to copy." exactly when none of the enumerated, non-ignored files can be read |

## Left out

- File system access (`fs.existsSync`, `fs.readFileSync`, `path.join`) is replaced by the `gitignore` and `read` parameters. `readFileSync(p, 'utf-8')` does not throw on binary content: it replaces bytes that are not valid UTF-8 with U+FFFD. So despite the "Skip binary files" comment at src/index.ts:51, binary files are read and copied: binary content alone never reaches the `catch`. A read that throws does, whether from an I/O error or from a file too large to become a string, and so does the append overflow described in the `GetFilesContent` line below. In the model, `read` returns `Some` for a binary file, and `None` for any read that throws.
- The `glob('**/*', { nodir: true, dot: true })` enumeration is a library call. Its result is the `files` parameter, and its order is taken as given.
- The `ignore` library's gitignore matching is not part of this model. `ig.ignores(file)` is `matcher(rules, file)` over the full rule list. No pattern compiler, negation or directory rule is modelled, because `src/index.ts` does not implement any.
- `clipboardy.write`, `console.log`, `console.error` and `process.exit(1)` are output and process control. `Report` keeps only the decision whether there is anything to copy.
- The file count `content.match(/File: /g)` is left out. It also counts `File: ` inside file contents, so the code promises nothing about it.
- The size printout `(content.length / 1024).toFixed(2)` is floating-point formatting and is left out.
- GetFilesContent: strings in the model have no length limit. In JavaScript an `output +=` past the engine's maximum string length throws a `RangeError`. All five appends sit inside the `try` at src/index.ts:41-53, and the bare `catch { continue; }` swallows that error too. The pieces appended before the failing one stay in `output`, so the document can end up with a partial block, for example a header with no content and no closing newline, and the loop goes on. The model does not capture this overflow path or its partial block; its `Entry` adds a whole block or nothing.
- `async`/`await` has no effect on the order of the steps, and the model is sequential.
- Strings are sequences of Unicode scalar values. JavaScript strings are UTF-16 code units, so a lone surrogate cannot be represented; the model only compares characters against `\n`, `#` and whitespace, all of which are single code units.
- An ignore file that exists but cannot be read makes `readFileSync` throw, and `main` then exits with status 1. The `gitignore` parameter is only "missing" or "its text", so this failure is not modelled. The same holds for a `glob` call that rejects, and for an `ig.ignores(file)` call at src/index.ts:34 that throws; the `ignore` library can reject a path it does not accept as relative. In either case `getFilesContent` rejects and `main` exits with status 1 (src/index.ts:76-78). `matcher` is a total function, so the model has no such path.

Points of `src/index.ts`'s behaviour that the model keeps as they are:

- The built-ins `.git` and `node_modules` are added after the ignore file's patterns, not before them.
- There are no exclude or "only" options, no stream output and no clipboard fallback, so the model has none.
- Every block ends with a newline, including the last one.
- A missing scan root is not checked separately; the scan runs on the current directory.
